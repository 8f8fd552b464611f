/**
 * The two reports (`writeTagCountOutput`, `writePortProtocolCountOutput`):
 * a header line, then one `key,count` line per tally entry.  Each line kind
 * has a reader that recovers the entry from it.
 */
module Reports {
  import opened JavaText
  import opened Lookup

  const TagHeader: string := "Tag,Count"
  const PortProtocolHeader: string := "Port,Protocol,Count"

  /** One tag report line: `tag + "," + count`. */
  function TagLine(tag: string, count: nat): string {
    tag + "," + NatToString(count)
  }

  predicate AllDigits(s: string) {
    forall j :: 0 <= j < |s| ==> IsDigit(s[j])
  }

  /**
   * Reads a `key,count` line: the key is everything before the last comma,
   * the count the decimal digits after it.
   */
  function ParseCountLine(line: string): Option<(string, nat)> {
    var i := LastIndexOf(line, ',');
    if i < 0 then None
    else
      var digits := line[i + 1..];
      if digits == [] || !AllDigits(digits) then None
      else Some((line[..i], ParseDigits(digits)))
  }

  /** A tag report line reads back as its tag and its count, whatever the tag holds. */
  lemma TagLineRoundTrip(tag: string, count: nat)
    ensures ParseCountLine(TagLine(tag, count)) == Some((tag, count))
  {
    var digits := NatToString(count);
    var line := TagLine(tag, count);
    assert line == tag + [','] + digits;
    assert ',' !in digits by {
      forall j | 0 <= j < |digits| ensures digits[j] != ',' {
        assert IsDigit(digits[j]);
      }
    }
    LastIndexOfSeparator(tag, ',', digits);
    assert line[|tag| + 1..] == digits;
    assert line[..|tag|] == tag;
  }

  /** Different entries give different tag report lines. */
  lemma TagLineInjective(tag1: string, count1: nat, tag2: string, count2: nat)
    requires TagLine(tag1, count1) == TagLine(tag2, count2)
    ensures tag1 == tag2 && count1 == count2
  {
    TagLineRoundTrip(tag1, count1);
    TagLineRoundTrip(tag2, count2);
  }

  /**
   * One port/protocol report line: the key split back into port and
   * protocol at its last comma, then the count.  (The program splits at
   * every comma; see `PortProtocolLineAsWritten`.)
   */
  function PortProtocolLine(key: string, count: nat): string
    requires ',' in key
  {
    KeyPort(key) + "," + KeyProtocol(key) + "," + NatToString(count)
  }

  /** Reads a `port,protocol,count` line: the protocol sits between the last two commas. */
  function ParsePortProtocolLine(line: string): Option<(string, string, nat)> {
    match ParseCountLine(line)
    case None => None
    case Some((key, count)) =>
      if ',' in key then Some((KeyPort(key), KeyProtocol(key), count)) else None
  }

  /**
   * A port/protocol report line reads back as the port and protocol of its
   * key, which join to that key again, and its count.
   */
  lemma PortProtocolLineRoundTrip(key: string, count: nat)
    requires ',' in key
    ensures ParsePortProtocolLine(PortProtocolLine(key, count)) == Some((KeyPort(key), KeyProtocol(key), count))
    ensures CompositeKey(KeyPort(key), KeyProtocol(key)) == key
  {
    CompositeKeyOfParts(key);
    assert PortProtocolLine(key, count) == TagLine(key, count);
    TagLineRoundTrip(key, count);
  }

  /** Different entries give different port/protocol report lines. */
  lemma PortProtocolLineInjective(key1: string, count1: nat, key2: string, count2: nat)
    requires ',' in key1 && ',' in key2
    requires PortProtocolLine(key1, count1) == PortProtocolLine(key2, count2)
    ensures key1 == key2 && count1 == count2
  {
    PortProtocolLineRoundTrip(key1, count1);
    PortProtocolLineRoundTrip(key2, count2);
  }

  /**
   * The program's own port/protocol line: `key.split(",")[0] + "," +
   * key.split(",")[1] + "," + count`.  `None` stands for the
   * out-of-bounds exception a split with fewer than two fields raises.
   */
  function PortProtocolLineAsWritten(key: string, count: nat): Option<string> {
    var parts := SplitComma(key);
    if |parts| < 2 then None
    else Some(parts[0] + "," + parts[1] + "," + NatToString(count))
  }

  /** When neither port nor protocol holds a comma, the program's line is the intended one. */
  lemma AsWrittenAgreesOnCommaFreePorts(port: string, protocol: string, count: nat)
    requires ',' !in port && ',' !in protocol && protocol != []
    ensures ',' in CompositeKey(port, protocol)
    ensures PortProtocolLineAsWritten(CompositeKey(port, protocol), count)
            == Some(PortProtocolLine(CompositeKey(port, protocol), count))
  {
    KeyPartsOfCompositeKey(port, protocol);
    assert JoinWith([port, protocol], ',') == CompositeKey(port, protocol) by {
      assert [port, protocol][1..] == [protocol];
    }
    SplitCommaOfJoin([port, protocol]);
  }

  /**
   * A port holding a comma (`80,81` with protocol `tcp`) loses its protocol:
   * the program writes `80,81,<count>`, which reads back as port `80` and
   * protocol `81`.
   */
  lemma AsWrittenDropsProtocol(before: string, after: string, protocol: string, count: nat)
    requires ',' !in before && ',' !in after && ',' !in protocol && protocol != []
    ensures PortProtocolLineAsWritten(CompositeKey(before + "," + after, protocol), count)
            == Some(TagLine(CompositeKey(before, after), count))
    ensures ParsePortProtocolLine(TagLine(CompositeKey(before, after), count)) == Some((before, after, count))
    ensures ParsePortProtocolLine(PortProtocolLine(CompositeKey(before + "," + after, protocol), count))
            == Some((before + "," + after, protocol, count))
  {
    var key := CompositeKey(before + "," + after, protocol);
    assert JoinWith([before, after, protocol], ',') == key by {
      assert [before, after, protocol][1..] == [after, protocol];
      assert [after, protocol][1..] == [protocol];
      assert JoinWith([after, protocol], ',') == after + [','] + protocol;
      assert JoinWith([before, after, protocol], ',') == before + [','] + (after + [','] + protocol);
      assert (before + "," + after) + "," + protocol == before + [','] + (after + [','] + protocol);
    }
    SplitCommaOfJoin([before, after, protocol]);
    TagLineRoundTrip(CompositeKey(before, after), count);
    KeyPartsOfCompositeKey(before, after);
    KeyPartsOfCompositeKey(before + "," + after, protocol);
    PortProtocolLineRoundTrip(key, count);
  }

  // ---------------------------------------------------------------- whole reports

  /** `line` reads back as an entry of `m`. */
  predicate IsTagEntryLine(line: string, m: map<string, nat>) {
    var e := ParseCountLine(line);
    e.Some? && e.value.0 in m && m[e.value.0] == e.value.1
  }

  /** `line` reads back as a port, a protocol and a count whose joined key has that count in `m`. */
  predicate IsPortProtocolEntryLine(line: string, m: map<string, nat>) {
    var e := ParsePortProtocolLine(line);
    e.Some? && CompositeKey(e.value.0, e.value.1) in m && m[CompositeKey(e.value.0, e.value.1)] == e.value.2
  }

  /**
   * The body of a tag report of `m`: |m| distinct lines, each reading back
   * as an entry of `m`, with every entry's line present.
   */
  predicate IsTagBody(lines: seq<string>, m: map<string, nat>) {
    && |lines| == |m|
    && (forall i :: 0 <= i < |lines| ==> IsTagEntryLine(lines[i], m))
    && (forall k :: k in m ==> TagLine(k, m[k]) in lines)
    && (forall i, j :: 0 <= i < j < |lines| ==> lines[i] != lines[j])
  }

  /** A tag report of `m`: the header, then a tag body of `m`. */
  predicate IsTagReport(out: seq<string>, m: map<string, nat>) {
    |out| >= 1 && out[0] == TagHeader && IsTagBody(out[1..], m)
  }

  /** The body of a port/protocol report of `m`, in the same sense. */
  predicate IsPortProtocolBody(lines: seq<string>, m: map<string, nat>)
    requires forall k :: k in m ==> ',' in k
  {
    && |lines| == |m|
    && (forall i :: 0 <= i < |lines| ==> IsPortProtocolEntryLine(lines[i], m))
    && (forall k :: k in m ==> PortProtocolLine(k, m[k]) in lines)
    && (forall i, j :: 0 <= i < j < |lines| ==> lines[i] != lines[j])
  }

  /** A port/protocol report of `m`: the header, then a port/protocol body of `m`. */
  predicate IsPortProtocolReport(out: seq<string>, m: map<string, nat>)
    requires forall k :: k in m ==> ',' in k
  {
    |out| >= 1 && out[0] == PortProtocolHeader && IsPortProtocolBody(out[1..], m)
  }

  /** No key appears twice in `keys`: each one differs from all before it. */
  predicate Distinct(keys: seq<string>) {
    keys == [] || (Distinct(keys[..|keys| - 1]) && keys[|keys| - 1] !in keys[..|keys| - 1])
  }

  /** The keys in `keys`, as a set. */
  function KeySet(keys: seq<string>): set<string> {
    if keys == [] then {} else KeySet(keys[..|keys| - 1]) + {keys[|keys| - 1]}
  }

  /** `KeySet` holds exactly the members of `keys`. */
  lemma {:induction false} KeySetHas(keys: seq<string>, k: string)
    ensures k in KeySet(keys) <==> k in keys
  {
    if keys != [] {
      var init := keys[..|keys| - 1];
      KeySetHas(init, k);
      assert keys == init + [keys[|keys| - 1]];
    }
  }

  /** A distinct sequence has as many members as its `KeySet`. */
  lemma {:induction false} KeySetSize(keys: seq<string>)
    requires Distinct(keys)
    ensures |KeySet(keys)| == |keys|
  {
    if keys != [] {
      var init := keys[..|keys| - 1];
      KeySetSize(init);
      KeySetHas(init, keys[|keys| - 1]);
    }
  }

  /** Two positions of a distinct sequence hold different keys. */
  lemma {:induction false} DistinctAt(keys: seq<string>, i: nat, j: nat)
    requires Distinct(keys) && i < j < |keys|
    ensures keys[i] != keys[j]
  {
    var init := keys[..|keys| - 1];
    if j == |keys| - 1 {
      assert keys[i] == init[i];
    } else {
      DistinctAt(init, i, j);
    }
  }

  /** The tag report's body lines for `keys`, in that order. */
  function TagLines(m: map<string, nat>, keys: seq<string>): (r: seq<string>)
    requires forall i :: 0 <= i < |keys| ==> keys[i] in m
    ensures |r| == |keys|
  {
    if keys == [] then []
    else TagLines(m, keys[..|keys| - 1]) + [TagLine(keys[|keys| - 1], m[keys[|keys| - 1]])]
  }

  /** The port/protocol report's body lines for `keys`, in that order. */
  function PortProtocolLines(m: map<string, nat>, keys: seq<string>): (r: seq<string>)
    requires forall k :: k in m ==> ',' in k
    requires forall i :: 0 <= i < |keys| ==> keys[i] in m
    ensures |r| == |keys|
  {
    if keys == [] then []
    else PortProtocolLines(m, keys[..|keys| - 1]) + [PortProtocolLine(keys[|keys| - 1], m[keys[|keys| - 1]])]
  }

  /** Line `i` of `TagLines` is the line of the `i`-th key. */
  lemma {:induction false} TagLinesAt(m: map<string, nat>, keys: seq<string>, i: nat)
    requires forall j :: 0 <= j < |keys| ==> keys[j] in m
    requires i < |keys|
    ensures TagLines(m, keys)[i] == TagLine(keys[i], m[keys[i]])
    decreases |keys|
  {
    if i < |keys| - 1 {
      TagLinesAt(m, keys[..|keys| - 1], i);
    }
  }

  /** Line `i` of `PortProtocolLines` is the line of the `i`-th key. */
  lemma {:induction false} PortProtocolLinesAt(m: map<string, nat>, keys: seq<string>, i: nat)
    requires forall k :: k in m ==> ',' in k
    requires forall j :: 0 <= j < |keys| ==> keys[j] in m
    requires i < |keys|
    ensures PortProtocolLines(m, keys)[i] == PortProtocolLine(keys[i], m[keys[i]])
    decreases |keys|
  {
    if i < |keys| - 1 {
      PortProtocolLinesAt(m, keys[..|keys| - 1], i);
    }
  }

  /** Every line of `TagLines` reads back as an entry of `m`. */
  lemma TagLinesAreEntries(m: map<string, nat>, keys: seq<string>)
    requires forall i :: 0 <= i < |keys| ==> keys[i] in m
    ensures forall i :: 0 <= i < |keys| ==> IsTagEntryLine(TagLines(m, keys)[i], m)
  {
    forall i | 0 <= i < |keys| ensures IsTagEntryLine(TagLines(m, keys)[i], m) {
      TagLinesAt(m, keys, i);
      TagLineRoundTrip(keys[i], m[keys[i]]);
    }
  }

  /** The lines of distinct keys are distinct. */
  lemma TagLinesDistinct(m: map<string, nat>, keys: seq<string>)
    requires forall i :: 0 <= i < |keys| ==> keys[i] in m
    requires Distinct(keys)
    ensures forall i, j :: 0 <= i < j < |keys| ==> TagLines(m, keys)[i] != TagLines(m, keys)[j]
  {
    forall i, j | 0 <= i < j < |keys| ensures TagLines(m, keys)[i] != TagLines(m, keys)[j] {
      TagLinesAt(m, keys, i);
      TagLinesAt(m, keys, j);
      DistinctAt(keys, i, j);
      if TagLines(m, keys)[i] == TagLines(m, keys)[j] {
        TagLineInjective(keys[i], m[keys[i]], keys[j], m[keys[j]]);
      }
    }
  }

  /** Every key of `m` has its line among `TagLines`. */
  lemma TagLinesCover(m: map<string, nat>, keys: seq<string>)
    requires forall i :: 0 <= i < |keys| ==> keys[i] in m
    requires KeySet(keys) == m.Keys
    ensures forall k :: k in m ==> TagLine(k, m[k]) in TagLines(m, keys)
  {
    forall k | k in m ensures TagLine(k, m[k]) in TagLines(m, keys) {
      KeySetHas(keys, k);
      var i :| 0 <= i < |keys| && keys[i] == k;
      TagLinesAt(m, keys, i);
    }
  }

  /**
   * Writing the header and then one line per key, for each key of `m` once
   * in any order, gives a tag report of `m`.
   */
  lemma TagReportOfKeys(m: map<string, nat>, keys: seq<string>)
    requires Distinct(keys) && KeySet(keys) == m.Keys
    ensures forall i :: 0 <= i < |keys| ==> keys[i] in m
    ensures IsTagReport([TagHeader] + TagLines(m, keys), m)
  {
    KeySetSize(keys);
    forall i | 0 <= i < |keys| ensures keys[i] in m {
      KeySetHas(keys, keys[i]);
    }
    var lines := TagLines(m, keys);
    TagLinesAreEntries(m, keys);
    TagLinesDistinct(m, keys);
    TagLinesCover(m, keys);
    assert ([TagHeader] + lines)[1..] == lines;
  }

  /** Every line of `PortProtocolLines` reads back as an entry of `m`. */
  lemma PortProtocolLinesAreEntries(m: map<string, nat>, keys: seq<string>)
    requires forall k :: k in m ==> ',' in k
    requires forall i :: 0 <= i < |keys| ==> keys[i] in m
    ensures forall i :: 0 <= i < |keys| ==> IsPortProtocolEntryLine(PortProtocolLines(m, keys)[i], m)
  {
    forall i | 0 <= i < |keys| ensures IsPortProtocolEntryLine(PortProtocolLines(m, keys)[i], m) {
      PortProtocolLinesAt(m, keys, i);
      PortProtocolLineRoundTrip(keys[i], m[keys[i]]);
    }
  }

  /** The lines of distinct keys are distinct. */
  lemma PortProtocolLinesDistinct(m: map<string, nat>, keys: seq<string>)
    requires forall k :: k in m ==> ',' in k
    requires forall i :: 0 <= i < |keys| ==> keys[i] in m
    requires Distinct(keys)
    ensures forall i, j :: 0 <= i < j < |keys| ==> PortProtocolLines(m, keys)[i] != PortProtocolLines(m, keys)[j]
  {
    forall i, j | 0 <= i < j < |keys| ensures PortProtocolLines(m, keys)[i] != PortProtocolLines(m, keys)[j] {
      PortProtocolLinesAt(m, keys, i);
      PortProtocolLinesAt(m, keys, j);
      DistinctAt(keys, i, j);
      if PortProtocolLines(m, keys)[i] == PortProtocolLines(m, keys)[j] {
        PortProtocolLineInjective(keys[i], m[keys[i]], keys[j], m[keys[j]]);
      }
    }
  }

  /** Every key of `m` has its line among `PortProtocolLines`. */
  lemma PortProtocolLinesCover(m: map<string, nat>, keys: seq<string>)
    requires forall k :: k in m ==> ',' in k
    requires forall i :: 0 <= i < |keys| ==> keys[i] in m
    requires KeySet(keys) == m.Keys
    ensures forall k :: k in m ==> PortProtocolLine(k, m[k]) in PortProtocolLines(m, keys)
  {
    forall k | k in m ensures PortProtocolLine(k, m[k]) in PortProtocolLines(m, keys) {
      KeySetHas(keys, k);
      var i :| 0 <= i < |keys| && keys[i] == k;
      PortProtocolLinesAt(m, keys, i);
    }
  }

  /** The same for the port/protocol report. */
  lemma PortProtocolReportOfKeys(m: map<string, nat>, keys: seq<string>)
    requires forall k :: k in m ==> ',' in k
    requires Distinct(keys) && KeySet(keys) == m.Keys
    ensures forall i :: 0 <= i < |keys| ==> keys[i] in m
    ensures IsPortProtocolReport([PortProtocolHeader] + PortProtocolLines(m, keys), m)
  {
    KeySetSize(keys);
    forall i | 0 <= i < |keys| ensures keys[i] in m {
      KeySetHas(keys, keys[i]);
    }
    var lines := PortProtocolLines(m, keys);
    PortProtocolLinesAreEntries(m, keys);
    PortProtocolLinesDistinct(m, keys);
    PortProtocolLinesCover(m, keys);
    assert ([PortProtocolHeader] + lines)[1..] == lines;
  }
}
