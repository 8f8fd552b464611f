/**
 * The small part of java.lang.String that the flow-log parser relies on:
 * `trim`, `toLowerCase`, `split(",")`, `split("\\s+")` and the decimal
 * rendering of a count, stated over `string` (a `seq<char>`).
 */
module JavaText {

  datatype Option<T> = None | Some(value: T)

  /** The characters `String.trim` removes: every char at or below U+0020. */
  predicate IsTrimmable(c: char) {
    c as int <= 0x20
  }

  /** The characters of the regex class `\s`: space, tab, LF, VT, FF and CR. */
  predicate IsSpace(c: char) {
    c == ' ' || 9 <= c as int <= 13
  }

  predicate HasSpace(s: string) {
    exists i :: 0 <= i < |s| && IsSpace(s[i])
  }

  // ---------------------------------------------------------------- trim

  /** How many trimmable characters `s` starts with. */
  function LeadingBlanks(s: string): (n: nat)
    ensures n <= |s|
    ensures forall i :: 0 <= i < n ==> IsTrimmable(s[i])
    ensures n == |s| || !IsTrimmable(s[n])
  {
    if s != [] && IsTrimmable(s[0]) then 1 + LeadingBlanks(s[1..]) else 0
  }

  /** How many trimmable characters `s` ends with. */
  function TrailingBlanks(s: string): (n: nat)
    ensures n <= |s|
    ensures forall i :: |s| - n <= i < |s| ==> IsTrimmable(s[i])
    ensures n == |s| || !IsTrimmable(s[|s| - n - 1])
  {
    if s != [] && IsTrimmable(s[|s| - 1]) then 1 + TrailingBlanks(s[..|s| - 1]) else 0
  }

  /** A string with no trimmable character at either end, as `trim` leaves it. */
  predicate IsTrimmed(s: string) {
    s == [] || (!IsTrimmable(s[0]) && !IsTrimmable(s[|s| - 1]))
  }

  /**
   * `String.trim`: the infix of `s` that starts after its leading run of
   * trimmable characters and leaves out its trailing run.  It is empty
   * exactly when all of `s` is trimmable.
   */
  function Trim(s: string): (r: string)
    ensures LeadingBlanks(s) + |r| <= |s|
    ensures r == s[LeadingBlanks(s)..LeadingBlanks(s) + |r|]
    ensures forall i :: LeadingBlanks(s) + |r| <= i < |s| ==> IsTrimmable(s[i])
    ensures IsTrimmed(r)
    ensures r == [] <==> forall i :: 0 <= i < |s| ==> IsTrimmable(s[i])
  {
    var t := s[LeadingBlanks(s)..];
    t[..|t| - TrailingBlanks(t)]
  }

  /** `line.trim().isEmpty()` */
  predicate IsBlank(s: string) {
    Trim(s) == []
  }

  /** A string with no trimmable character at either end is its own trim. */
  lemma TrimOfTrimmed(s: string)
    requires IsTrimmed(s)
    ensures Trim(s) == s
  {
  }

  // ---------------------------------------------------------------- case

  /** `Character.toLowerCase` restricted to ASCII. */
  function LowerChar(c: char): char {
    if 'A' <= c <= 'Z' then (c as int - 'A' as int + 'a' as int) as char else c
  }

  predicate IsLower(s: string) {
    forall i :: 0 <= i < |s| ==> !('A' <= s[i] <= 'Z')
  }

  /** `String.toLowerCase` on ASCII letters; every other char is kept. */
  function ToLower(s: string): (r: string)
    ensures |r| == |s| && IsLower(r)
    ensures forall i :: 0 <= i < |s| && !('A' <= s[i] <= 'Z') ==> r[i] == s[i]
    ensures forall i :: 0 <= i < |s| && 'A' <= s[i] <= 'Z' ==> r[i] as int == s[i] as int + 32
  {
    seq(|s|, i requires 0 <= i < |s| => LowerChar(s[i]))
  }

  /** Lower-casing a string that holds no upper-case letter changes nothing. */
  lemma ToLowerOfLower(s: string)
    requires IsLower(s)
    ensures ToLower(s) == s
  {
  }

  /**
   * Lower-casing twice is lower-casing once: a protocol already lower-cased
   * when its key was stored is not changed by lower-casing it again.
   */
  lemma ToLowerIdempotent(s: string)
    ensures ToLower(ToLower(s)) == ToLower(s)
  {
    ToLowerOfLower(ToLower(s));
  }

  // ---------------------------------------------------------------- join

  /** The fields of `parts` with `sep` between neighbours. */
  function JoinWith(parts: seq<string>, sep: char): string {
    if |parts| == 0 then []
    else if |parts| == 1 then parts[0]
    else parts[0] + [sep] + JoinWith(parts[1..], sep)
  }

  lemma JoinWithConsHead(c: char, head: string, rest: seq<string>, sep: char)
    ensures JoinWith([[c] + head] + rest, sep) == [c] + JoinWith([head] + rest, sep)
  {
    if |rest| > 0 {
      assert ([[c] + head] + rest)[1..] == rest;
      assert ([head] + rest)[1..] == rest;
    }
  }

  // ---------------------------------------------------------------- split(",")

  /** The strings between consecutive commas of `s` (every comma splits). */
  function CommaPieces(s: string): (r: seq<string>)
    ensures |r| >= 1
    ensures forall p :: p in r ==> ',' !in p
    ensures JoinWith(r, ',') == s
  {
    if s == [] then [[]]
    else
      var t := CommaPieces(s[1..]);
      if s[0] == ',' then
        assert JoinWith([[]] + t, ',') == [','] + JoinWith(t, ',') by {
          assert ([[]] + t)[1..] == t;
        }
        assert [s[0]] + s[1..] == s;
        [[]] + t
      else
        JoinWithConsHead(s[0], t[0], t[1..], ',');
        assert [t[0]] + t[1..] == t;
        assert [s[0]] + s[1..] == s;
        [[s[0]] + t[0]] + t[1..]
  }

  /** A string without a comma is its own single piece. */
  lemma {:induction false} CommaPiecesNoComma(s: string)
    requires ',' !in s
    ensures CommaPieces(s) == [s]
  {
    if s != [] {
      assert ',' !in s[1..] by {
        forall c | c in s[1..] ensures c != ',' { }
      }
      CommaPiecesNoComma(s[1..]);
    }
  }

  /** A leading comma-free field is split off at the first comma. */
  lemma {:induction false} CommaPiecesAfterField(a: string, rest: string)
    requires ',' !in a
    ensures CommaPieces(a + [','] + rest) == [a] + CommaPieces(rest)
  {
    if a == [] {
      assert a + [','] + rest == [','] + rest;
      assert ([','] + rest)[1..] == rest;
    } else {
      assert (a + [','] + rest)[1..] == a[1..] + [','] + rest;
      assert ',' !in a[1..] by {
        forall c | c in a[1..] ensures c != ',' { assert c in a; }
      }
      CommaPiecesAfterField(a[1..], rest);
      assert [a[0]] + a[1..] == a;
    }
  }

  /** The pieces of a comma-join of comma-free fields are those fields. */
  lemma {:induction false} CommaPiecesOfJoin(fields: seq<string>)
    requires |fields| >= 1
    requires forall p :: p in fields ==> ',' !in p
    ensures CommaPieces(JoinWith(fields, ',')) == fields
  {
    if |fields| == 1 {
      CommaPiecesNoComma(fields[0]);
    } else {
      assert fields[0] in fields;
      assert forall p :: p in fields[1..] ==> p in fields;
      CommaPiecesOfJoin(fields[1..]);
      CommaPiecesAfterField(fields[0], JoinWith(fields[1..], ','));
      assert [fields[0]] + fields[1..] == fields;
    }
  }

  /** The list with its trailing empty strings removed. */
  function DropTrailingEmpty(ps: seq<string>): (r: seq<string>)
    ensures r <= ps
    ensures r == [] || r[|r| - 1] != []
    ensures forall i :: |r| <= i < |ps| ==> ps[i] == []
  {
    if ps != [] && ps[|ps| - 1] == [] then DropTrailingEmpty(ps[..|ps| - 1]) else ps
  }

  lemma DropTrailingEmptyNoop(ps: seq<string>)
    requires ps == [] || ps[|ps| - 1] != []
    ensures DropTrailingEmpty(ps) == ps
  {
  }

  /**
   * `s.split(",")`: a string without a comma comes back whole (even when
   * it is empty); otherwise the comma pieces with trailing empty strings
   * removed.
   */
  function SplitComma(s: string): (r: seq<string>)
    ensures ',' !in s ==> r == [s]
    ensures ',' in s ==> r <= CommaPieces(s) && (r == [] || r[|r| - 1] != [])
    ensures ',' in s ==> forall i :: |r| <= i < |CommaPieces(s)| ==> CommaPieces(s)[i] == []
    ensures forall p :: p in r ==> ',' !in p
  {
    if ',' !in s then [s] else DropTrailingEmpty(CommaPieces(s))
  }

  /** Splitting a comma-join of comma-free fields whose last one is not empty gives the fields back. */
  lemma SplitCommaOfJoin(fields: seq<string>)
    requires |fields| >= 1 && fields[|fields| - 1] != []
    requires forall p :: p in fields ==> ',' !in p
    ensures SplitComma(JoinWith(fields, ',')) == fields
  {
    var s := JoinWith(fields, ',');
    CommaPiecesOfJoin(fields);
    if ',' !in s {
      CommaPiecesNoComma(s);
    } else {
      DropTrailingEmptyNoop(fields);
    }
  }

  // ---------------------------------------------------------------- split("\\s+")

  /** `s` without its leading run of `\s` characters. */
  function SkipSpaces(s: string): (r: string)
    ensures |r| <= |s| && r == s[|s| - |r|..]
    ensures r == [] || !IsSpace(r[0])
    ensures s != [] && IsSpace(s[0]) ==> |r| < |s|
  {
    if s != [] && IsSpace(s[0]) then SkipSpaces(s[1..]) else s
  }

  predicate NoSpace(p: string) {
    forall i :: 0 <= i < |p| ==> !IsSpace(p[i])
  }

  /**
   * The strings between consecutive maximal runs of `\s` characters.  A
   * leading run yields an empty first piece and a trailing run an empty
   * last piece; every piece in between is non-empty.
   */
  function SpacePieces(s: string): (r: seq<string>)
    ensures |r| >= 1
    ensures forall i :: 0 <= i < |r| ==> NoSpace(r[i])
    ensures forall i :: 0 < i < |r| - 1 ==> r[i] != []
    ensures s != [] && !IsSpace(s[0]) ==> r[0] != []
    ensures s != [] && IsSpace(s[0]) ==> r[0] == []
    ensures !HasSpace(s) ==> r == [s]
    decreases |s|
  {
    if s == [] then [[]]
    else if IsSpace(s[0]) then [[]] + SpacePieces(SkipSpaces(s))
    else
      var t := SpacePieces(s[1..]);
      assert !HasSpace(s) ==> !HasSpace(s[1..]) by {
        if HasSpace(s[1..]) {
          var i :| 0 <= i < |s[1..]| && IsSpace(s[1..][i]);
          assert IsSpace(s[i + 1]);
        }
      }
      assert !HasSpace(s) ==> [s[0]] + s[1..] == s;
      [[s[0]] + t[0]] + t[1..]
  }

  /** Unfolding `SpacePieces` at a leading non-space character. */
  lemma SpacePiecesCons(s: string)
    requires s != [] && !IsSpace(s[0])
    ensures var t := SpacePieces(s[1..]); SpacePieces(s) == [[s[0]] + t[0]] + t[1..]
  {
  }

  /** A space-free non-empty field is split off at the following run of spaces. */
  lemma {:induction false} SpacePiecesAfterField(a: string, rest: string)
    requires NoSpace(a)
    requires rest != [] && IsSpace(rest[0])
    ensures SpacePieces(a + rest) == [a] + SpacePieces(rest)[1..]
  {
    var pr := SpacePieces(rest);
    if a == [] {
      assert pr == [[]] + SpacePieces(SkipSpaces(rest));
      assert a + rest == rest;
    } else {
      var s := a + rest;
      assert s[0] == a[0];
      assert s[1..] == a[1..] + rest;
      SpacePiecesAfterField(a[1..], rest);
      SpacePiecesCons(s);
      assert [a[0]] + a[1..] == a;
    }
  }

  /** A run made of `\s` characters only. */
  predicate AllSpace(g: string) {
    forall i :: 0 <= i < |g| ==> IsSpace(g[i])
  }

  /** Non-empty space-free fields with one non-empty run of `\s` characters between each two. */
  predicate IsLayout(fields: seq<string>, gaps: seq<string>) {
    && |fields| == |gaps| + 1
    && (forall i :: 0 <= i < |fields| ==> fields[i] != [] && NoSpace(fields[i]))
    && (forall i :: 0 <= i < |gaps| ==> gaps[i] != [] && AllSpace(gaps[i]))
  }

  /** `fields[0] + gaps[0] + fields[1] + ... + fields[n - 1]`. */
  function Interleave(fields: seq<string>, gaps: seq<string>): string
    requires |fields| == |gaps| + 1
    decreases |gaps|
  {
    if gaps == [] then fields[0] else fields[0] + gaps[0] + Interleave(fields[1..], gaps[1..])
  }

  lemma InterleaveHead(fields: seq<string>, gaps: seq<string>)
    requires |fields| == |gaps| + 1 && fields[0] != []
    ensures Interleave(fields, gaps) != [] && Interleave(fields, gaps)[0] == fields[0][0]
  {
  }

  lemma AppendRight(a: string, b: string, c: string, d: string)
    ensures a + b + c + d == a + (b + (c + d))
  {
  }

  /** A layout without its first field and first gap is a layout. */
  lemma LayoutTail(fields: seq<string>, gaps: seq<string>)
    requires IsLayout(fields, gaps) && gaps != []
    ensures IsLayout(fields[1..], gaps[1..])
    ensures fields[0] != [] && NoSpace(fields[0]) && gaps[0] != [] && AllSpace(gaps[0])
    ensures fields[1] != [] && NoSpace(fields[1])
  {
  }

  /** A field and a gap in front of a layout make a layout. */
  lemma LayoutCons(f: string, g: string, fields: seq<string>, gaps: seq<string>, trail: string)
    requires f != [] && NoSpace(f) && g != [] && AllSpace(g)
    requires IsLayout(fields, gaps)
    ensures IsLayout([f] + fields, [g] + gaps)
    ensures Interleave([f] + fields, [g] + gaps) + trail == f + (g + (Interleave(fields, gaps) + trail))
  {
    assert ([f] + fields)[1..] == fields && ([g] + gaps)[1..] == gaps;
    AppendRight(f, g, Interleave(fields, gaps), trail);
  }

  /** A whole run of whitespace in front of a non-space character is skipped. */
  lemma {:induction false} SkipSpacesOfRun(g: string, x: string)
    requires AllSpace(g)
    requires x == [] || !IsSpace(x[0])
    ensures SkipSpaces(g + x) == x
  {
    if g == [] {
      assert g + x == x;
    } else {
      assert (g + x)[1..] == g[1..] + x;
      SkipSpacesOfRun(g[1..], x);
    }
  }

  /** A leading run of whitespace gives an empty first piece and nothing more. */
  lemma SpacePiecesAfterRun(lead: string, s: string)
    requires lead != [] && AllSpace(lead)
    requires s == [] || !IsSpace(s[0])
    ensures SpacePieces(lead + s) == [[]] + SpacePieces(s)
  {
    SkipSpacesOfRun(lead, s);
  }

  /** A last field followed by an optional trailing run of whitespace. */
  lemma SpacePiecesOfLastField(f: string, trail: string)
    requires f != [] && NoSpace(f) && AllSpace(trail)
    ensures SpacePieces(f + trail) == [f] + (if trail == [] then [] else [[]])
  {
    if trail == [] {
      assert f + trail == f && !HasSpace(f);
    } else {
      SpacePiecesAfterField(f, trail);
      SpacePiecesAfterRun(trail, []);
      assert trail + [] == trail;
    }
  }

  /** A field, then a run of whitespace, then text that does not start with whitespace. */
  lemma SpacePiecesOfGap(f: string, g: string, y: string)
    requires NoSpace(f) && g != [] && AllSpace(g)
    requires y == [] || !IsSpace(y[0])
    ensures SpacePieces(f + (g + y)) == [f] + SpacePieces(y)
  {
    SpacePiecesAfterField(f, g + y);
    SpacePiecesAfterRun(g, y);
  }

  /**
   * Non-empty space-free fields separated by runs of one or more `\s`
   * characters, with an optional trailing run, are cut into exactly those
   * fields, plus an empty last piece when the trailing run is there.
   */
  lemma {:induction false} SpacePiecesOfRuns(fields: seq<string>, gaps: seq<string>, trail: string)
    requires IsLayout(fields, gaps) && AllSpace(trail)
    ensures SpacePieces(Interleave(fields, gaps) + trail) == fields + (if trail == [] then [] else [[]])
    decreases |gaps|
  {
    if gaps == [] {
      SpacePiecesOfLastField(fields[0], trail);
      assert fields == [fields[0]];
    } else {
      LayoutTail(fields, gaps);
      SpacePiecesOfRuns(fields[1..], gaps[1..], trail);
      SpacePiecesOfFirstGap(fields, gaps, trail, if trail == [] then [] else [[]]);
    }
  }

  /** The step of `SpacePiecesOfRuns`: the first field and gap put one field in front of the rest's pieces. */
  lemma SpacePiecesOfFirstGap(fields: seq<string>, gaps: seq<string>, trail: string, end: seq<string>)
    requires |fields| == |gaps| + 1 && gaps != []
    requires NoSpace(fields[0]) && fields[1] != [] && NoSpace(fields[1])
    requires gaps[0] != [] && AllSpace(gaps[0])
    requires SpacePieces(Interleave(fields[1..], gaps[1..]) + trail) == fields[1..] + end
    ensures SpacePieces(Interleave(fields, gaps) + trail) == fields + end
  {
    var x := Interleave(fields[1..], gaps[1..]);
    InterleaveHead(fields[1..], gaps[1..]);
    SpacePiecesOfGap(fields[0], gaps[0], x + trail);
    AppendRight(fields[0], gaps[0], x, trail);
    ConsPieces(fields, end);
  }

  lemma ConsPieces(fields: seq<string>, end: seq<string>)
    requires fields != []
    ensures [fields[0]] + (fields[1..] + end) == fields + end
  {
  }

  /**
   * `s.split("\\s+")`: a string without `\s` comes back whole; otherwise its
   * space pieces with trailing empty strings removed.  The first field is
   * empty when the line starts with whitespace; every other field is
   * non-empty, and no field contains whitespace.
   */
  function SplitWhitespace(s: string): (r: seq<string>)
    ensures !HasSpace(s) ==> r == [s]
    ensures HasSpace(s) ==> r <= SpacePieces(s) && (r == [] || r[|r| - 1] != [])
    ensures HasSpace(s) ==> forall i :: |r| <= i < |SpacePieces(s)| ==> SpacePieces(s)[i] == []
    ensures forall i :: 0 <= i < |r| ==> NoSpace(r[i])
    ensures forall i :: 0 < i < |r| ==> r[i] != []
  {
    if !HasSpace(s) then [s] else DropTrailingEmpty(SpacePieces(s))
  }

  /** The pieces of a whole line: an empty first piece for a leading run, an empty last one for a trailing run. */
  lemma SpacePiecesOfLine(lead: string, fields: seq<string>, gaps: seq<string>, trail: string)
    requires AllSpace(lead) && AllSpace(trail) && IsLayout(fields, gaps)
    ensures SpacePieces(lead + Interleave(fields, gaps) + trail)
            == (if lead == [] then [] else [[]]) + fields + (if trail == [] then [] else [[]])
  {
    var y := Interleave(fields, gaps) + trail;
    SpacePiecesOfRuns(fields, gaps, trail);
    InterleaveHead(fields, gaps);
    assert lead + Interleave(fields, gaps) + trail == lead + y;
    if lead == [] {
      assert lead + y == y;
    } else {
      SpacePiecesAfterRun(lead, y);
    }
  }

  /** Such a line holds whitespace unless it is a single field with no leading or trailing run. */
  lemma HasSpaceOfLine(lead: string, fields: seq<string>, gaps: seq<string>, trail: string)
    requires AllSpace(lead) && AllSpace(trail) && IsLayout(fields, gaps)
    requires lead != [] || trail != [] || gaps != []
    ensures HasSpace(lead + Interleave(fields, gaps) + trail)
  {
    var s := lead + Interleave(fields, gaps) + trail;
    if lead != [] {
      assert IsSpace(s[0]);
    } else if trail != [] {
      assert IsSpace(s[|s| - 1]);
    } else {
      LayoutTail(fields, gaps);
      assert s == fields[0] + gaps[0] + Interleave(fields[1..], gaps[1..]);
      assert IsSpace(s[|fields[0]|]);
    }
  }

  /**
   * A line made of an optional leading run of whitespace, non-empty
   * space-free fields separated by runs of one or more whitespace
   * characters, and an optional trailing run splits into those fields,
   * preceded by one empty field exactly when the leading run is there.
   */
  lemma SplitWhitespaceOfRuns(lead: string, fields: seq<string>, gaps: seq<string>, trail: string)
    requires AllSpace(lead) && AllSpace(trail) && IsLayout(fields, gaps)
    ensures SplitWhitespace(lead + Interleave(fields, gaps) + trail) == (if lead == [] then [] else [[]]) + fields
  {
    var s := lead + Interleave(fields, gaps) + trail;
    var pieces := (if lead == [] then [] else [[]]) + fields;
    if lead == [] && trail == [] && gaps == [] {
      assert s == fields[0] && !HasSpace(s);
    } else {
      HasSpaceOfLine(lead, fields, gaps, trail);
      SpacePiecesOfLine(lead, fields, gaps, trail);
      DropOneTrailingEmpty(pieces, if trail == [] then [] else [[]]);
    }
  }

  /** Dropping the trailing empty strings removes at most one added empty piece after a non-empty one. */
  lemma DropOneTrailingEmpty(pieces: seq<string>, end: seq<string>)
    requires pieces != [] && pieces[|pieces| - 1] != []
    requires end == [] || end == [[]]
    ensures DropTrailingEmpty(pieces + end) == pieces
  {
    DropTrailingEmptyNoop(pieces);
    if end == [] {
      assert pieces + end == pieces;
    } else {
      assert (pieces + end)[..|pieces|] == pieces;
    }
  }

  /** The length of the leading run of non-space characters. */
  function FieldLength(s: string): (n: nat)
    ensures n <= |s| && NoSpace(s[..n])
    ensures n == |s| || IsSpace(s[n])
  {
    if s == [] || IsSpace(s[0]) then 0 else 1 + FieldLength(s[1..])
  }

  /** The length of the leading run of `\s` characters. */
  function RunLength(s: string): (n: nat)
    ensures n <= |s| && AllSpace(s[..n])
    ensures n == |s| || !IsSpace(s[n])
  {
    if s != [] && IsSpace(s[0]) then 1 + RunLength(s[1..]) else 0
  }

  /** Every string that starts with a non-space character is fields separated by runs, then a trailing run. */
  lemma {:induction false} FieldsOf(s: string) returns (fields: seq<string>, gaps: seq<string>, trail: string)
    requires s != [] && !IsSpace(s[0])
    ensures IsLayout(fields, gaps) && AllSpace(trail)
    ensures s == Interleave(fields, gaps) + trail
    decreases |s|
  {
    var k := FieldLength(s);
    var f, r := s[..k], s[k..];
    var m := RunLength(r);
    var g, y := r[..m], r[m..];
    assert s == f + (g + y);
    if y == [] {
      fields, gaps, trail := [f], [], g;
      assert g + y == g;
    } else {
      var fs, gs, t := FieldsOf(y);
      LayoutCons(f, g, fs, gs, t);
      fields, gaps, trail := [f] + fs, [g] + gs, t;
    }
  }

  /**
   * Every line that is not all whitespace has the shape `SplitWhitespaceOfRuns`
   * describes, so its split is its fields, after an empty one exactly when
   * it starts with whitespace.
   */
  lemma LineOfRuns(s: string) returns (lead: string, fields: seq<string>, gaps: seq<string>, trail: string)
    requires !AllSpace(s)
    ensures AllSpace(lead) && AllSpace(trail) && IsLayout(fields, gaps)
    ensures s == lead + Interleave(fields, gaps) + trail
    ensures SplitWhitespace(s) == (if lead == [] then [] else [[]]) + fields
  {
    var n := RunLength(s);
    lead := s[..n];
    assert s == lead + s[n..];
    fields, gaps, trail := FieldsOf(s[n..]);
    SplitWhitespaceOfRuns(lead, fields, gaps, trail);
  }

  /** A non-empty line of whitespace only splits into no field at all. */
  lemma SplitWhitespaceOfRun(s: string)
    requires s != [] && AllSpace(s)
    ensures SplitWhitespace(s) == []
  {
    assert HasSpace(s) by {
      assert IsSpace(s[0]);
    }
    SpacePiecesAfterRun(s, []);
    assert s + [] == s;
    var empty: string := [];
    assert SpacePieces(s) == [empty, empty];
    assert [empty, empty][..1] == [empty];
  }

  // ---------------------------------------------------------------- decimal

  predicate IsDigit(c: char) {
    '0' <= c <= '9'
  }

  function DigitChar(d: nat): (c: char)
    requires d < 10
    ensures IsDigit(c) && c as int - '0' as int == d
  {
    ('0' as int + d) as char
  }

  /** `Integer.toString` for a non-negative count: its decimal digits. */
  function NatToString(n: nat): (r: string)
    ensures r != [] && forall i :: 0 <= i < |r| ==> IsDigit(r[i])
    ensures ParseDigits(r) == n
    ensures n > 0 ==> r[0] != '0'
  {
    if n < 10 then [DigitChar(n)]
    else
      var r := NatToString(n / 10) + [DigitChar(n % 10)];
      assert r[..|r| - 1] == NatToString(n / 10);
      r
  }

  /** The value of a string of decimal digits. */
  function ParseDigits(s: string): nat
    requires forall i :: 0 <= i < |s| ==> IsDigit(s[i])
  {
    if s == [] then 0
    else
      assert IsDigit(s[|s| - 1]);
      ParseDigits(s[..|s| - 1]) * 10 + (s[|s| - 1] as int - '0' as int)
  }

  // ---------------------------------------------------------------- lastIndexOf

  /** The index of the last `c` in `s`, or -1 when there is none. */
  function LastIndexOf(s: string, c: char): (r: int)
    ensures -1 <= r < |s|
    ensures r >= 0 ==> s[r] == c && c !in s[r + 1..]
    ensures r < 0 ==> c !in s
  {
    if s == [] then -1
    else if s[|s| - 1] == c then |s| - 1
    else
      var r := LastIndexOf(s[..|s| - 1], c);
      assert s == s[..|s| - 1] + [s[|s| - 1]];
      r
  }

  /** The last `c` of `a + [c] + b` is the one between them when `b` has none. */
  lemma {:induction false} LastIndexOfSeparator(a: string, c: char, b: string)
    requires c !in b
    ensures LastIndexOf(a + [c] + b, c) == |a|
  {
    var s := a + [c] + b;
    if b != [] {
      assert s[|s| - 1] == b[|b| - 1] && b[|b| - 1] in b;
      assert s[..|s| - 1] == a + [c] + b[..|b| - 1];
      assert c !in b[..|b| - 1] by {
        forall x | x in b[..|b| - 1] ensures x in b { }
      }
      LastIndexOfSeparator(a, c, b[..|b| - 1]);
    }
  }
}
