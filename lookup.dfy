/**
 * The lookup-table loader (`parseLookupTable`): each line of the lookup
 * file is a row `dstport,protocol,tag`; a valid row maps the key
 * `port + "," + protocol` (both trimmed, the protocol lower-cased) to the
 * trimmed tag, overwriting any earlier tag for that key.
 */
module Lookup {
  import opened JavaText

  /** What one valid lookup row contributes: a key and the tag it maps to. */
  datatype Entry = Entry(key: string, tag: string)

  /** The composite string key the program uses for a (port, protocol) pair. */
  function CompositeKey(port: string, protocol: string): string {
    port + "," + protocol
  }

  /** The protocol part of a composite key: what follows its last comma. */
  function KeyProtocol(key: string): string {
    key[LastIndexOf(key, ',') + 1..]
  }

  /** The port part of a composite key: what precedes its last comma. */
  function KeyPort(key: string): string
    requires ',' in key
  {
    key[..LastIndexOf(key, ',')]
  }

  /** A composite key splits back into its port and a comma-free protocol. */
  lemma KeyPartsOfCompositeKey(port: string, protocol: string)
    requires ',' !in protocol
    ensures ',' in CompositeKey(port, protocol)
    ensures KeyPort(CompositeKey(port, protocol)) == port
    ensures KeyProtocol(CompositeKey(port, protocol)) == protocol
  {
    var key := CompositeKey(port, protocol);
    assert key == port + [','] + protocol;
    assert key[|port|] == ',';
    LastIndexOfSeparator(port, ',', protocol);
  }

  /** Rebuilding a key from its parts gives the key back. */
  lemma CompositeKeyOfParts(key: string)
    requires ',' in key
    ensures CompositeKey(KeyPort(key), KeyProtocol(key)) == key
    ensures ',' !in KeyProtocol(key)
  {
    var i := LastIndexOf(key, ',');
    assert key == key[..i] + [key[i]] + key[i + 1..];
  }

  /**
   * One lookup row.  A blank line, or one whose comma split does not have
   * exactly three fields, yields nothing; otherwise the key joins the
   * trimmed port and the trimmed, lower-cased protocol, and the tag is the
   * trimmed third field.
   */
  function ParseLookupLine(line: string): (r: Option<Entry>)
    ensures r.None? <==> IsBlank(line) || |SplitComma(line)| != 3
    ensures r.Some? ==>
              var f := SplitComma(line);
              && r.value.key == CompositeKey(Trim(f[0]), ToLower(Trim(f[1])))
              && r.value.tag == Trim(f[2])
  {
    if IsBlank(line) then None
    else
      var parts := SplitComma(line);
      if |parts| != 3 then None
      else Some(Entry(CompositeKey(Trim(parts[0]), ToLower(Trim(parts[1]))), Trim(parts[2])))
  }

  /** Every character of `Trim(s)` is a character of `s`. */
  lemma TrimIsInfix(s: string, c: char)
    requires c in Trim(s)
    ensures c in s
  {
    var t := Trim(s);
    var lo := LeadingBlanks(s);
    var i :| 0 <= i < |t| && t[i] == c;
    assert s[lo + i] == c;
  }

  /**
   * The key of a valid row has a lower-case, comma-free protocol after its
   * last comma, and its tag is trimmed and comma-free.
   */
  lemma ParsedEntryShape(line: string)
    requires ParseLookupLine(line).Some?
    ensures ',' in ParseLookupLine(line).value.key
    ensures IsLower(KeyProtocol(ParseLookupLine(line).value.key))
    ensures ',' !in ParseLookupLine(line).value.tag && IsTrimmed(ParseLookupLine(line).value.tag)
  {
    var parts := SplitComma(line);
    assert parts[1] in parts && parts[2] in parts;
    var protocol := ToLower(Trim(parts[1]));
    if ',' in protocol {
      var i :| 0 <= i < |protocol| && protocol[i] == ',';
      TrimIsInfix(parts[1], Trim(parts[1])[i]);
    }
    KeyPartsOfCompositeKey(Trim(parts[0]), protocol);
    if ',' in Trim(parts[2]) {
      TrimIsInfix(parts[2], ',');
    }
  }

  /**
   * The row `port,protocol,tag` built from trimmed comma-free fields with a
   * non-empty tag parses back to the entry for `port` and the lower-cased
   * protocol.
   */
  lemma ParseLookupRow(port: string, protocol: string, tag: string)
    requires ',' !in port && ',' !in protocol && ',' !in tag
    requires IsTrimmed(port) && IsTrimmed(protocol) && IsTrimmed(tag) && tag != []
    ensures ParseLookupLine(JoinWith([port, protocol, tag], ','))
            == Some(Entry(CompositeKey(port, ToLower(protocol)), tag))
  {
    var line := JoinWith([port, protocol, tag], ',');
    assert JoinWith([port, protocol, tag][1..], ',') == protocol + [','] + tag by {
      assert [port, protocol, tag][1..] == [protocol, tag];
      assert [protocol, tag][1..] == [tag];
    }
    assert line[|line| - 1] == tag[|tag| - 1];
    assert !IsBlank(line);
    SplitCommaOfJoin([port, protocol, tag]);
    TrimOfTrimmed(port);
    TrimOfTrimmed(protocol);
    TrimOfTrimmed(tag);
  }

  /** The effect of one lookup line on the table (`lookupMap.put(key, tag)`). */
  function LookupStep(table: map<string, string>, line: string): map<string, string> {
    match ParseLookupLine(line)
    case None => table
    case Some(e) => table[e.key := e.tag]
  }

  /** A well-formed row sets its key, the port joined with the lower-cased protocol, to its tag. */
  lemma LookupStepOfRow(table: map<string, string>, port: string, protocol: string, tag: string)
    requires ',' !in port && ',' !in protocol && ',' !in tag
    requires IsTrimmed(port) && IsTrimmed(protocol) && IsTrimmed(tag) && tag != []
    ensures LookupStep(table, JoinWith([port, protocol, tag], ','))
            == table[CompositeKey(port, ToLower(protocol)) := tag]
  {
    ParseLookupRow(port, protocol, tag);
  }

  /** The table after reading `lines` in order, starting from `table`. */
  function LoadAll(table: map<string, string>, lines: seq<string>): map<string, string>
  {
    if lines == [] then table
    else LookupStep(LoadAll(table, lines[..|lines| - 1]), lines[|lines| - 1])
  }

  /** The diagnostic printed for a malformed lookup row. */
  function LookupDiagnostic(line: string): string {
    "Invalid line in lookup table: " + line
  }

  /** What the pass reports for one line: nothing, or its diagnostic. */
  function LookupLineDiagnostics(line: string): seq<string> {
    if !IsBlank(line) && |SplitComma(line)| != 3 then [LookupDiagnostic(line)] else []
  }

  /** The reports of a pass over `lines`: `report` of each line, joined in file order. */
  function LineReports(report: string -> seq<string>, lines: seq<string>): seq<string> {
    if lines == [] then []
    else LineReports(report, lines[..|lines| - 1]) + report(lines[|lines| - 1])
  }

  /** The reports of two line sequences read in turn are theirs in the same order. */
  lemma {:induction false} LineReportsAppend(report: string -> seq<string>, xs: seq<string>, ys: seq<string>)
    ensures LineReports(report, xs + ys) == LineReports(report, xs) + LineReports(report, ys)
  {
    if ys == [] {
      assert xs + ys == xs;
    } else {
      var zs := xs + ys;
      var init, last := ys[..|ys| - 1], ys[|ys| - 1];
      assert zs[..|zs| - 1] == xs + init && zs[|zs| - 1] == last;
      LineReportsAppend(report, xs, init);
    }
  }

  /**
   * The diagnostics of a lookup pass: one per line that is not blank but
   * does not split into exactly three fields, in file order.
   */
  function LookupDiagnostics(lines: seq<string>): seq<string> {
    LineReports(LookupLineDiagnostics, lines)
  }

  /** A single line is reported exactly when it is neither blank nor three comma fields. */
  lemma LookupDiagnosticsOfLine(line: string)
    ensures !IsBlank(line) && |SplitComma(line)| != 3 ==> LookupDiagnostics([line]) == [LookupDiagnostic(line)]
    ensures IsBlank(line) || |SplitComma(line)| == 3 ==> LookupDiagnostics([line]) == []
  {
    assert [line][..0] == [];
    assert LookupDiagnostics([line]) == LineReports(LookupLineDiagnostics, []) + LookupLineDiagnostics(line);
  }

  /** The diagnostics of two line sequences read in turn are theirs in the same order. */
  lemma LookupDiagnosticsAppend(xs: seq<string>, ys: seq<string>)
    ensures LookupDiagnostics(xs + ys) == LookupDiagnostics(xs) + LookupDiagnostics(ys)
  {
    LineReportsAppend(LookupLineDiagnostics, xs, ys);
  }

  /** Whether `line` is a valid row for key `k`. */
  predicate DefinesKey(line: string, k: string) {
    ParseLookupLine(line).Some? && ParseLookupLine(line).value.key == k
  }

  /** Whether some line of `lines` is a valid row for key `k`. */
  predicate SomeRowDefines(lines: seq<string>, k: string) {
    exists i :: 0 <= i < |lines| && DefinesKey(lines[i], k)
  }

  /** Some element of `xs` satisfies `p` exactly when one of its prefix does or its last one does. */
  lemma ExistsSnoc<T>(xs: seq<T>, init: seq<T>, p: T -> bool)
    requires xs != [] && init == xs[..|xs| - 1]
    ensures (exists i :: 0 <= i < |xs| && p(xs[i])) <==>
              (exists i :: 0 <= i < |init| && p(init[i])) || p(xs[|xs| - 1])
  {
    if exists i :: 0 <= i < |init| && p(init[i]) {
      var i :| 0 <= i < |init| && p(init[i]);
      assert xs[i] == init[i];
    }
    if exists i :: 0 <= i < |xs| && p(xs[i]) {
      var i :| 0 <= i < |xs| && p(xs[i]);
      if i < |init| {
        assert xs[i] == init[i];
      }
    }
  }

  lemma SomeRowDefinesSnoc(lines: seq<string>, k: string)
    requires lines != []
    ensures SomeRowDefines(lines, k) <==>
              SomeRowDefines(lines[..|lines| - 1], k) || DefinesKey(lines[|lines| - 1], k)
  {
    ExistsSnoc(lines, lines[..|lines| - 1], line => DefinesKey(line, k));
  }

  /** A key is in the loaded table exactly when it was there before or some valid row defines it. */
  lemma {:induction false} LoadAllKeys(table: map<string, string>, lines: seq<string>, k: string)
    ensures k in LoadAll(table, lines) <==> k in table || SomeRowDefines(lines, k)
  {
    if lines != [] {
      var init := lines[..|lines| - 1];
      var last := lines[|lines| - 1];
      assert LoadAll(table, lines) == LookupStep(LoadAll(table, init), last);
      assert k in LoadAll(table, lines) <==> k in LoadAll(table, init) || DefinesKey(last, k);
      LoadAllKeys(table, init, k);
      SomeRowDefinesSnoc(lines, k);
    }
  }

  /**
   * Last write wins: the tag of the last valid row for a key is the tag the
   * table holds for it, whatever earlier rows or the starting table said.
   */
  lemma {:induction false} LoadAllLastWriteWins(table: map<string, string>, lines: seq<string>, i: nat)
    requires i < |lines| && ParseLookupLine(lines[i]).Some?
    requires forall j :: i < j < |lines| ==> !DefinesKey(lines[j], ParseLookupLine(lines[i]).value.key)
    ensures ParseLookupLine(lines[i]).value.key in LoadAll(table, lines)
    ensures LoadAll(table, lines)[ParseLookupLine(lines[i]).value.key] == ParseLookupLine(lines[i]).value.tag
  {
    var init := lines[..|lines| - 1];
    if i < |lines| - 1 {
      assert init[i] == lines[i];
      forall j | i < j < |init| ensures !DefinesKey(init[j], ParseLookupLine(init[i]).value.key) {
        assert init[j] == lines[j];
      }
      LoadAllLastWriteWins(table, init, i);
    }
  }

  /** A key that no row defines keeps its entry (or its absence) from the starting table. */
  lemma {:induction false} LoadAllUntouched(table: map<string, string>, lines: seq<string>, k: string)
    requires forall i :: 0 <= i < |lines| ==> !DefinesKey(lines[i], k)
    ensures k in LoadAll(table, lines) <==> k in table
    ensures k in table ==> LoadAll(table, lines)[k] == table[k]
  {
    if lines != [] {
      var init := lines[..|lines| - 1];
      forall i | 0 <= i < |init| ensures !DefinesKey(init[i], k) {
        assert init[i] == lines[i];
      }
      LoadAllUntouched(table, init, k);
    }
  }

  /** A malformed or blank line anywhere in the file leaves the loaded table as if it were absent. */
  lemma {:induction false} LoadAllSkipsInvalid(table: map<string, string>, before: seq<string>, bad: string,
                                               after: seq<string>)
    requires ParseLookupLine(bad).None?
    ensures LoadAll(table, before + [bad] + after) == LoadAll(table, before + after)
  {
    if after == [] {
      assert (before + [bad] + after)[..|before| + 1 - 1] == before;
      assert before + after == before;
    } else {
      var init := after[..|after| - 1];
      LoadAllSkipsInvalid(table, before, bad, init);
      assert (before + [bad] + after)[..|before + [bad] + after| - 1] == before + [bad] + init;
      assert (before + after)[..|before + after| - 1] == before + init;
    }
  }

  /** Reading `xs` and then `ys` is reading `xs + ys`. */
  lemma {:induction false} LoadAllAppend(table: map<string, string>, xs: seq<string>, ys: seq<string>)
    ensures LoadAll(table, xs + ys) == LoadAll(LoadAll(table, xs), ys)
  {
    if ys == [] {
      assert xs + ys == xs;
    } else {
      var zs := xs + ys;
      var init, last := ys[..|ys| - 1], ys[|ys| - 1];
      assert zs[..|zs| - 1] == xs + init && zs[|zs| - 1] == last;
      LoadAllAppend(table, xs, init);
      calc {
        LoadAll(table, zs);
        LookupStep(LoadAll(table, xs + init), last);
        LookupStep(LoadAll(LoadAll(table, xs), init), last);
        LoadAll(LoadAll(table, xs), ys);
      }
    }
  }

  /**
   * The protocol of a row is compared without regard to ASCII case: two
   * rows for the same port whose protocols differ only in case (`80,TCP,web`
   * and `80,tcp,mail`) define the same key, so by `LoadAllLastWriteWins` the
   * table ends up with one entry for them, holding the later tag.
   */
  lemma ProtocolCaseCollapses(port: string, protocol1: string, tag1: string, protocol2: string, tag2: string)
    requires ',' !in port && ',' !in protocol1 && ',' !in tag1 && ',' !in protocol2 && ',' !in tag2
    requires IsTrimmed(port) && IsTrimmed(protocol1) && IsTrimmed(tag1) && tag1 != []
    requires IsTrimmed(protocol2) && IsTrimmed(tag2) && tag2 != []
    requires ToLower(protocol1) == ToLower(protocol2)
    ensures ParseLookupLine(JoinWith([port, protocol1, tag1], ',')) == Some(Entry(CompositeKey(port, ToLower(protocol2)), tag1))
    ensures ParseLookupLine(JoinWith([port, protocol2, tag2], ',')) == Some(Entry(CompositeKey(port, ToLower(protocol2)), tag2))
  {
    ParseLookupRow(port, protocol1, tag1);
    ParseLookupRow(port, protocol2, tag2);
  }
}
