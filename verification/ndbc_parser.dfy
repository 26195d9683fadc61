/** The NDBC temperature/salinity text parser
    (parse_NDBC_temperature_and_salinity.py), over lines already read.
    Tokens stay text: the float conversion and the calendar checks of
    `strptime` are not modelled. */
module NdbcParser {
  import opened Outcomes
  import opened Strings

  // ---------------------------------------------------------------------
  // Whitespace, str.lstrip and re.split(r'[\s\t]+', ...)

  /** ASCII whitespace as Python's `str.isspace` and `\s` see it. */
  predicate IsSpace(c: char) {
    // space; tab, line feed, vertical tab, form feed, carriage return;
    // the four separators 0x1c..0x1f
    c == ' ' || 9 <= c as int <= 13 || 28 <= c as int <= 31
  }

  predicate NoSpace(s: string) {
    forall i :: 0 <= i < |s| ==> !IsSpace(s[i])
  }

  /** `str.lstrip()`: drops the leading whitespace and nothing else. */
  function LStrip(s: string): (r: string)
    ensures |r| <= |s|
    ensures r == [] || !IsSpace(r[0])
    ensures forall i :: 0 <= i < |s| - |r| ==> IsSpace(s[i])
  {
    if s != [] && IsSpace(s[0]) then LStrip(s[1..]) else s
  }

  /** What `lstrip` keeps is the rest of the text, unchanged. */
  lemma {:induction false} LStripSuffix(s: string)
    ensures LStrip(s) == s[|s| - |LStrip(s)|..]
    decreases |s|
  {
    if s != [] && IsSpace(s[0]) {
      LStripSuffix(s[1..]);
    }
  }

  /** Index of the first whitespace character, or the length. */
  function FirstSpace(s: string): (i: nat)
    ensures i <= |s| && NoSpace(s[..i])
    ensures i < |s| ==> IsSpace(s[i])
  {
    if s == [] || IsSpace(s[0]) then 0
    else
      var i := 1 + FirstSpace(s[1..]);
      assert s[..i] == [s[0]] + s[1..][..i - 1];
      i
  }

  /** `re.split(r'[\s\t]+', s)`: the pieces between maximal whitespace
      runs; text ending in whitespace gives a last empty piece. */
  function Split(s: string): (tokens: seq<string>)
    ensures |tokens| >= 1
    decreases |s|
  {
    var i := FirstSpace(s);
    if i == |s| then [s]
    else [s[..i]] + Split(LStrip(s[i + 1..]))
  }

  /** No piece holds whitespace. */
  lemma {:induction false} SplitNoSpace(s: string)
    ensures forall t :: t in Split(s) ==> NoSpace(t)
    decreases |s|
  {
    var i := FirstSpace(s);
    if i < |s| {
      var rest := LStrip(s[i + 1..]);
      SplitNoSpace(rest);
      assert Split(s) == [s[..i]] + Split(rest);
    }
  }

  /** Text that starts with a non-space character splits into a non-empty
      first piece. */
  lemma SplitFirstPiece(s: string)
    requires s != [] && !IsSpace(s[0])
    ensures Split(s)[0] != []
  {
    assert FirstSpace(s) > 0;
  }

  /** Every piece but the first and the last is non-empty: whitespace runs
      are maximal. */
  lemma {:induction false} SplitInnerPieces(s: string)
    ensures forall k :: 0 < k < |Split(s)| - 1 ==> Split(s)[k] != []
    decreases |s|
  {
    var i := FirstSpace(s);
    if i < |s| {
      var rest := LStrip(s[i + 1..]);
      SplitInnerPieces(rest);
      assert Split(s) == [s[..i]] + Split(rest);
      if |Split(rest)| > 1 {
        assert rest != [];
        SplitFirstPiece(rest);
      }
      forall k | 0 < k < |Split(s)| - 1 ensures Split(s)[k] != [] {
        assert Split(s)[k] == Split(rest)[k - 1];
      }
    }
  }

  /** Only whitespace. */
  predicate AllSpace(s: string) {
    forall i :: 0 <= i < |s| ==> IsSpace(s[i])
  }

  /** The whitespace runs that `Split` cuts at, in order. */
  function Separators(s: string): seq<string>
    decreases |s|
  {
    var i := FirstSpace(s);
    if i == |s| then []
    else
      var rest := LStrip(s[i + 1..]);
      [s[i..|s| - |rest|]] + Separators(rest)
  }

  /** Tokens with a separator between each two neighbours. */
  function Interleave(tokens: seq<string>, seps: seq<string>): string
    requires |tokens| == |seps| + 1
    decreases |seps|
  {
    if seps == [] then tokens[0] else tokens[0] + seps[0] + Interleave(tokens[1..], seps[1..])
  }

  /** The pieces, put back together with the non-empty whitespace runs they
      were cut at, give the text back. */
  lemma {:induction false} SplitRoundTrip(s: string)
    ensures |Split(s)| == |Separators(s)| + 1
    ensures forall sep :: sep in Separators(s) ==> sep != [] && AllSpace(sep)
    ensures Interleave(Split(s), Separators(s)) == s
    decreases |s|
  {
    if FirstSpace(s) < |s| {
      var rest := FirstCut(s);
      SplitRoundTrip(rest);
      var i := FirstSpace(s);
      var sep := s[i..|s| - |rest|];
      InterleaveCons(s[..i], sep, Split(rest), Separators(rest));
    }
  }

  /** Text with whitespace is its first piece, the whitespace run after it,
      and the rest that `Split` goes on with. */
  lemma FirstCut(s: string) returns (rest: string)
    requires FirstSpace(s) < |s|
    ensures FirstSpace(s) + |rest| < |s|
    ensures var i := FirstSpace(s);
            var sep := s[i..|s| - |rest|];
            && sep != [] && AllSpace(sep)
            && s == s[..i] + sep + rest
            && Split(s) == [s[..i]] + Split(rest)
            && Separators(s) == [sep] + Separators(rest)
  {
    var i := FirstSpace(s);
    rest := LStrip(s[i + 1..]);
    CutIsRun(s, i);
    CutTwice(s, i, |s| - |rest|);
  }

  lemma InterleaveCons(t: string, sep: string, tokens: seq<string>, seps: seq<string>)
    requires |tokens| == |seps| + 1
    ensures Interleave([t] + tokens, [sep] + seps) == t + sep + Interleave(tokens, seps)
  {
    assert ([t] + tokens)[1..] == tokens;
    assert ([sep] + seps)[1..] == seps;
  }

  /** What lies between the first piece and the stripped rest is a
      whitespace run, and the stripped rest ends the text. */
  lemma CutIsRun(s: string, i: nat)
    requires i == FirstSpace(s) < |s|
    ensures var rest := LStrip(s[i + 1..]);
            && rest == s[|s| - |rest|..]
            && AllSpace(s[i..|s| - |rest|])
  {
    var t := s[i + 1..];
    var rest := LStrip(t);
    LStripSuffix(t);
    var j := |s| - |rest|;
    assert t[|t| - |rest|..] == s[j..];
    forall k | i <= k < j ensures IsSpace(s[k]) {
      if k > i {
        assert s[k] == t[k - i - 1];
      }
    }
  }

  /** Whitespace-free pieces, non-empty except at the ends, with a
      non-empty whitespace run between each two neighbours. */
  predicate IsCut(tokens: seq<string>, seps: seq<string>) {
    && |tokens| == |seps| + 1
    && (forall t :: t in tokens ==> NoSpace(t))
    && (forall k :: 0 < k < |tokens| - 1 ==> tokens[k] != [])
    && (forall sep :: sep in seps ==> sep != [] && AllSpace(sep))
  }

  lemma IsCutTail(tokens: seq<string>, seps: seq<string>)
    requires IsCut(tokens, seps) && seps != []
    ensures IsCut(tokens[1..], seps[1..])
  {
    forall t | t in tokens[1..] ensures NoSpace(t) {
      assert t in tokens;
    }
    forall x | x in seps[1..] ensures x != [] && AllSpace(x) {
      assert x in seps;
    }
  }

  /** Conversely, the only way to cut text into whitespace-free pieces,
      non-empty except at the ends, separated by non-empty whitespace runs,
      is the one `Split` finds. */
  lemma {:induction false} SplitUnique(s: string, tokens: seq<string>, seps: seq<string>)
    requires IsCut(tokens, seps) && Interleave(tokens, seps) == s
    ensures Split(s) == tokens && Separators(s) == seps
    decreases |seps|
  {
    if seps == [] {
      assert tokens[0] in tokens;
      FirstSpaceAt(s, |s|);
    } else {
      var r := UniqueStep(s, tokens, seps);
      IsCutTail(tokens, seps);
      SplitUnique(r, tokens[1..], seps[1..]);
      assert tokens == [tokens[0]] + tokens[1..];
      assert seps == [seps[0]] + seps[1..];
    }
  }

  /** `Split` and `Separators` take off the first piece and run of such a
      decomposition. */
  lemma UniqueStep(s: string, tokens: seq<string>, seps: seq<string>) returns (r: string)
    requires IsCut(tokens, seps) && seps != [] && Interleave(tokens, seps) == s
    ensures r == Interleave(tokens[1..], seps[1..])
    ensures Split(s) == [tokens[0]] + Split(r)
    ensures Separators(s) == [seps[0]] + Separators(r)
  {
    r := UniqueCut(s, tokens, seps);
    var i := |tokens[0]|;
    assert Split(s) == [s[..i]] + Split(r);
    assert Separators(s) == [s[i..|s| - |r|]] + Separators(r);
  }

  /** The first cut of such a decomposition is the first cut `Split` makes. */
  lemma UniqueCut(s: string, tokens: seq<string>, seps: seq<string>) returns (r: string)
    requires IsCut(tokens, seps) && seps != [] && Interleave(tokens, seps) == s
    ensures r == Interleave(tokens[1..], seps[1..])
    ensures FirstSpace(s) == |tokens[0]| < |s| && s[..|tokens[0]|] == tokens[0]
    ensures LStrip(s[|tokens[0]| + 1..]) == r
    ensures s[|tokens[0]|..|s| - |r|] == seps[0]
  {
    var first := tokens[0];
    var sep := seps[0];
    r := Interleave(tokens[1..], seps[1..]);
    assert sep in seps;
    assert first in tokens;
    assert s == first + sep + r;
    assert s[|first|] == sep[0];
    assert s[..|first|] == first;
    FirstSpaceAt(s, |first|);
    assert tokens[1] in tokens;
    if tokens[1] == [] {
      assert |tokens| == 2;
      assert r == [];
    } else {
      assert r[0] == tokens[1][0];
    }
    assert s[|first| + 1..] == sep[1..] + r;
    StripRun(sep[1..], r);
  }

  /** `FirstSpace` finds the one index with no space before it and a space
      (or the end) at it. */
  lemma {:induction false} FirstSpaceAt(s: string, i: nat)
    requires i <= |s| && NoSpace(s[..i]) && (i < |s| ==> IsSpace(s[i]))
    ensures FirstSpace(s) == i
    decreases i
  {
    if i > 0 {
      assert s[..i][0] == s[0];
      assert s[1..][..i - 1] == s[..i][1..];
      FirstSpaceAt(s[1..], i - 1);
    }
  }

  /** Stripping a whitespace run in front of text that starts with a
      non-space gives that text. */
  lemma {:induction false} StripRun(run: string, r: string)
    requires AllSpace(run) && (r == [] || !IsSpace(r[0]))
    ensures LStrip(run + r) == r
    decreases |run|
  {
    if run == [] {
      assert run + r == r;
    } else {
      assert (run + r)[0] == run[0];
      assert (run + r)[1..] == run[1..] + r;
      StripRun(run[1..], r);
    }
  }

  lemma CutTwice(s: string, i: nat, j: nat)
    requires i <= j <= |s|
    ensures s == s[..i] + s[i..j] + s[j..]
  {
  }

  /** Python's slices `tokens[:n]` and `tokens[n:]`, which never fail. */
  function Take(tokens: seq<string>, n: nat): (r: seq<string>)
    ensures |r| == if |tokens| < n then |tokens| else n
    ensures r == tokens[..|r|]
  {
    if |tokens| <= n then tokens else tokens[..n]
  }

  function Drop(tokens: seq<string>, n: nat): (r: seq<string>)
    ensures |r| == if |tokens| < n then 0 else |tokens| - n
    ensures Take(tokens, n) + r == tokens
  {
    if |tokens| <= n then [] else tokens[n..]
  }

  /** `[entry for entry in tokens if len(entry) > 0]` */
  function NonEmpty(tokens: seq<string>): (r: seq<string>)
    ensures forall t :: t in r ==> t != [] && t in tokens
    ensures forall t :: t in tokens && t != [] ==> t in r
  {
    if tokens == [] then []
    else (if tokens[0] != [] then [tokens[0]] else []) + NonEmpty(tokens[1..])
  }

  /** The filter keeps the order of the tokens. */
  lemma {:induction false} NonEmptyKeepsOrder(tokens: seq<string>)
    ensures IsSubseq(NonEmpty(tokens), tokens)
    decreases |tokens|
  {
    if tokens != [] {
      var rest := tokens[1..];
      NonEmptyKeepsOrder(rest);
      assert tokens == [tokens[0]] + rest;
      if tokens[0] != [] {
        assert NonEmpty(tokens) == [tokens[0]] + NonEmpty(rest);
        SubseqKeep(NonEmpty(rest), tokens[0], rest);
      } else {
        assert NonEmpty(tokens) == NonEmpty(rest);
        SubseqSkip(NonEmpty(rest), tokens[0], rest);
      }
    }
  }

  /** The filter keeps every non-empty token as often as it occurs, and no
      empty one. */
  lemma {:induction false} NonEmptyKeepsCounts(tokens: seq<string>)
    ensures forall t :: multiset(NonEmpty(tokens))[t] == if t == [] then 0 else multiset(tokens)[t]
    decreases |tokens|
  {
    if tokens != [] {
      var rest := tokens[1..];
      NonEmptyKeepsCounts(rest);
      assert tokens == [tokens[0]] + rest;
      assert multiset(tokens) == multiset{tokens[0]} + multiset(rest);
      if tokens[0] != [] {
        assert multiset(NonEmpty(tokens)) == multiset{tokens[0]} + multiset(NonEmpty(rest));
      } else {
        assert NonEmpty(tokens) == NonEmpty(rest);
      }
    }
  }

  // ---------------------------------------------------------------------
  // parse_ndbc_timestamp

  /** A timestamp as its date text `YYYYMMDD` and time text `HHMMSS`. */
  datatype Stamp = Stamp(date: string, time: string)

  /** parse_ndbc_timestamp: the date token must have 8 characters and the
      time token 6 or 4; a 4-character time has zero seconds. */
  function ParseTimestamp(ts: seq<string>): (r: Result<Stamp>)
    ensures r.Ok? <==> |ts| >= 2 && |ts[0]| == 8 && (|ts[1]| == 6 || |ts[1]| == 4)
    ensures |ts| == 0 ==> r == Err(IndexError("timestamp[0]"))
    ensures |ts| > 0 && |ts[0]| != 8 ==> r == Err(AssertionError("len(timestamp[0]) == 8"))
    ensures |ts| == 1 && |ts[0]| == 8 ==> r == Err(IndexError("timestamp[1]"))
    ensures |ts| >= 2 && |ts[0]| == 8 && |ts[1]| != 6 && |ts[1]| != 4 ==>
              r == Err(AssertionError("len(timestamp[1]) == 6 or len(timestamp[1]) == 4"))
    ensures r.Ok? ==> && r.value.date == ts[0]
                      && |r.value.time| == 6
                      && r.value.time[..|ts[1]|] == ts[1]
                      && (|ts[1]| == 4 ==> r.value.time[4..] == "00")
  {
    if |ts| == 0 then Err(IndexError("timestamp[0]"))
    else if |ts[0]| != 8 then Err(AssertionError("len(timestamp[0]) == 8"))
    else if |ts| < 2 then Err(IndexError("timestamp[1]"))
    else if |ts[1]| != 6 && |ts[1]| != 4 then Err(AssertionError("len(timestamp[1]) == 6 or len(timestamp[1]) == 4"))
    else if |ts[1]| == 6 then Ok(Stamp(ts[0], ts[1]))
    else Ok(Stamp(ts[0], ts[1] + "00"))
  }

  // ---------------------------------------------------------------------
  // ndbc_file_to_list

  /** A data row: its timestamp and its remaining non-empty tokens. */
  datatype Row = Row(stamp: Stamp, fields: seq<string>)

  /** The column names and the data rows. */
  datatype Parsed = Parsed(header: seq<string>, rows: seq<Row>)

  /** After stripping, a data line starts with '1' or '2'. */
  predicate IsDataLine(stripped: string): (b: bool)
    ensures b <==> stripped != [] && (stripped[0] == '1' || stripped[0] == '2')
  {
    StartsWith(stripped, "1") || StartsWith(stripped, "2")
  }

  /** After stripping, a header line starts with "YYYY". */
  predicate IsHeaderLine(stripped: string): (b: bool)
    ensures b <==> |stripped| >= 4 && forall k :: 0 <= k < 4 ==> stripped[k] == 'Y'
  {
    StartsWith(stripped, "YYYY")
  }

  /** The row of a data line: the timestamp of its first two tokens, then
      every non-empty token from the third on. */
  function ParseDataLine(stripped: string): Result<Row> {
    var tokens := Split(stripped);
    match ParseTimestamp(Take(tokens, 2))
    case Err(e) => Err(e)
    case Ok(stamp) => Ok(Row(stamp, NonEmpty(Drop(tokens, 2))))
  }

  /** The header of a header line: "datetime", then the lower-cased
      non-empty tokens from the third on. */
  function HeaderOf(stripped: string): seq<string> {
    ["datetime"] + LowerAll(NonEmpty(Drop(Split(stripped), 2)))
  }

  /** `[entry.lower() for entry in names]` */
  function LowerAll(names: seq<string>): (r: seq<string>)
    ensures |r| == |names|
    ensures forall k :: 0 <= k < |r| ==> |r[k]| == |names[k]| && forall c :: c in r[k] ==> !IsUpper(c)
  {
    AllLowerHaveNoUpper(names);
    seq(|names|, k requires 0 <= k < |names| => Lower(names[k]))
  }

  lemma AllLowerHaveNoUpper(names: seq<string>)
    ensures forall k :: 0 <= k < |names| ==> forall c :: c in Lower(names[k]) ==> !IsUpper(c)
  {
    forall k | 0 <= k < |names| {
      LowerHasNoUpper(names[k]);
    }
  }

  /** The rows of the data lines, in order, or the first failure. */
  function DataRows(lines: seq<string>): Result<seq<Row>>
    decreases |lines|
  {
    if lines == [] then Ok([])
    else match DataRows(lines[..|lines| - 1])
      case Err(e) => Err(e)
      case Ok(rows) =>
        var line := LStrip(lines[|lines| - 1]);
        if !IsDataLine(line) then Ok(rows)
        else match ParseDataLine(line)
          case Err(e) => Err(e)
          case Ok(row) => Ok(rows + [row])
  }

  /** The header built from the first header line, or empty. */
  function FirstHeader(lines: seq<string>): seq<string>
    decreases |lines|
  {
    if lines == [] then []
    else
      var header := FirstHeader(lines[..|lines| - 1]);
      var line := LStrip(lines[|lines| - 1]);
      if IsDataLine(line) || header != [] || !IsHeaderLine(line) then header
      else HeaderOf(line)
  }

  /** Specification of ndbc_file_to_list. */
  function ParseLines(lines: seq<string>): Result<Parsed> {
    match DataRows(lines)
    case Err(e) => Err(e)
    case Ok(rows) =>
      var header := FirstHeader(lines);
      if |rows| > 0 && |header| > 0 && |header| != 1 + |rows[0].fields| then
        Err(AssertionError("len(header) == len(data[0])"))
      else Ok(Parsed(header, rows))
  }

  /** A failing data line ends the parse with its exception. */
  lemma {:induction false} DataRowsFailureSticks(lines: seq<string>, i: nat)
    requires i <= |lines| && DataRows(lines[..i]).Err?
    ensures DataRows(lines) == DataRows(lines[..i])
    decreases |lines|
  {
    if i < |lines| {
      var init := lines[..|lines| - 1];
      assert init[..i] == lines[..i];
      DataRowsFailureSticks(init, i);
    } else {
      assert lines[..i] == lines;
    }
  }

  /** One more line: the data rows and the header of `lines[..i + 1]` in
      terms of those of `lines[..i]`. */
  lemma ParseStep(lines: seq<string>, i: nat)
    requires i < |lines|
    ensures var line := LStrip(lines[i]);
            var before := DataRows(lines[..i]);
            && DataRows(lines[..i + 1]) ==
                 (if before.Err? || !IsDataLine(line) then before
                  else match ParseDataLine(line)
                       case Err(e) => Err(e)
                       case Ok(row) => Ok(before.value + [row]))
            && FirstHeader(lines[..i + 1]) ==
                 (if IsDataLine(line) || FirstHeader(lines[..i]) != [] || !IsHeaderLine(line) then FirstHeader(lines[..i])
                  else HeaderOf(line))
  {
    assert lines[..i + 1][..i] == lines[..i];
  }

  /** ndbc_file_to_list over the lines of the file. */
  method NdbcFileToList(lines: seq<string>) returns (r: Result<Parsed>)
    ensures r == ParseLines(lines)
  {
    var data: seq<Row> := [];
    var header: seq<string> := [];
    var haveHeader := false;
    for i := 0 to |lines|
      invariant DataRows(lines[..i]) == Ok(data)
      invariant header == FirstHeader(lines[..i])
      invariant haveHeader <==> header != []
    {
      ParseStep(lines, i);
      var line := LStrip(lines[i]);
      if StartsWith(line, "1") || StartsWith(line, "2") {
        var tokens := Split(line);
        var stamp := ParseTimestamp(Take(tokens, 2));
        if stamp.Err? {
          DataRowsFailureSticks(lines, i + 1);
          return Err(stamp.error);
        }
        data := data + [Row(stamp.value, NonEmpty(Drop(tokens, 2)))];
      } else if !haveHeader && StartsWith(line, "YYYY") {
        header := HeaderOf(line);
        haveHeader := true;
      }
    }
    assert lines[..|lines|] == lines;
    if |data| > 0 && |header| > 0 {
      if |header| != 1 + |data[0].fields| {
        return Err(AssertionError("len(header) == len(data[0])"));
      }
    }
    return Ok(Parsed(header, data));
  }

  // ---------------------------------------------------------------------
  // Properties of the parse

  /** The data lines of a file, stripped, in order. */
  function DataLines(lines: seq<string>): seq<string>
    decreases |lines|
  {
    if lines == [] then []
    else DataLines(lines[..|lines| - 1])
         + (if IsDataLine(LStrip(lines[|lines| - 1])) then [LStrip(lines[|lines| - 1])] else [])
  }

  /** The parse fails exactly when some data line fails; otherwise there is
      one row per data line, in file order. */
  lemma {:induction false} DataRowsPerLine(lines: seq<string>)
    ensures DataRows(lines).Ok? <==> forall l :: l in DataLines(lines) ==> ParseDataLine(l).Ok?
    ensures DataRows(lines).Ok? ==>
              && |DataRows(lines).value| == |DataLines(lines)|
              && forall k :: 0 <= k < |DataLines(lines)| ==> ParseDataLine(DataLines(lines)[k]) == Ok(DataRows(lines).value[k])
    decreases |lines|
  {
    if lines != [] {
      var init := lines[..|lines| - 1];
      DataRowsPerLine(init);
      var line := LStrip(lines[|lines| - 1]);
      if IsDataLine(line) {
        assert DataLines(lines) == DataLines(init) + [line];
        assert forall l :: l in DataLines(lines) <==> l in DataLines(init) || l == line;
      } else {
        assert DataLines(lines) == DataLines(init);
      }
    }
  }

  /** Every row has an 8-character date, a 6-character time, and fields
      that are non-empty and free of whitespace. */
  lemma RowShape(line: string)
    requires ParseDataLine(line).Ok?
    ensures var row := ParseDataLine(line).value;
            && |row.stamp.date| == 8 && |row.stamp.time| == 6
            && forall f :: f in row.fields ==> f != [] && NoSpace(f)
  {
    var tokens := Split(line);
    SplitNoSpace(line);
    var rest := Drop(tokens, 2);
    assert forall t :: t in rest ==> t in tokens;
  }

  /** Only the first header line counts: with a header line and no header
      line before it, the header is built from it, whatever follows. */
  lemma {:induction false} FirstHeaderIsFirst(lines: seq<string>, i: nat)
    requires i < |lines| && IsHeaderLine(LStrip(lines[i]))
    requires forall j :: 0 <= j < i ==> !IsHeaderLine(LStrip(lines[j]))
    ensures FirstHeader(lines) == HeaderOf(LStrip(lines[i]))
    decreases |lines|
  {
    var init := lines[..|lines| - 1];
    if i < |lines| - 1 {
      assert init[i] == lines[i];
      assert forall j :: 0 <= j < i ==> init[j] == lines[j];
      FirstHeaderIsFirst(init, i);
      assert FirstHeader(init)[0] == "datetime";
    } else {
      assert forall j :: 0 <= j < |init| ==> init[j] == lines[j];
      NoHeaderYet(init);
      LineKindsDisjoint(LStrip(lines[i]));
    }
  }

  /** Without a header line there is no header. */
  lemma {:induction false} NoHeaderYet(lines: seq<string>)
    requires forall j :: 0 <= j < |lines| ==> !IsHeaderLine(LStrip(lines[j]))
    ensures FirstHeader(lines) == []
    decreases |lines|
  {
    if lines != [] {
      var init := lines[..|lines| - 1];
      assert forall j :: 0 <= j < |init| ==> init[j] == lines[j];
      NoHeaderYet(init);
    }
  }

  /** Lower-cased text holds no upper-case letter. */
  lemma LowerHasNoUpper(s: string)
    ensures forall c :: c in Lower(s) ==> !IsUpper(c)
  {
    forall c | c in Lower(s) ensures !IsUpper(c) {
      var i :| 0 <= i < |s| && Lower(s)[i] == c;
      assert c == LowerChar(s[i]);
    }
  }

  /** A header starts with "datetime", and its other names are non-empty and
      lower-case. */
  lemma HeaderShape(line: string)
    ensures HeaderOf(line)[0] == "datetime"
    ensures forall k :: 1 <= k < |HeaderOf(line)| ==>
              HeaderOf(line)[k] != [] && forall c :: c in HeaderOf(line)[k] ==> !IsUpper(c)
  {
    var names := NonEmpty(Drop(Split(line), 2));
    forall k | 1 <= k < |HeaderOf(line)|
      ensures HeaderOf(line)[k] != [] && forall c :: c in HeaderOf(line)[k] ==> !IsUpper(c)
    {
      assert names[k - 1] in names;
      assert HeaderOf(line)[k] == Lower(names[k - 1]);
      LowerHasNoUpper(names[k - 1]);
    }
  }

  /** No line is both a data line and a header line, so testing for data
      first never hides a header. */
  lemma LineKindsDisjoint(stripped: string)
    ensures !(IsDataLine(stripped) && IsHeaderLine(stripped))
  {
    if IsHeaderLine(stripped) {
      assert stripped[0] == "YYYY"[0];
    }
  }

  // ---------------------------------------------------------------------
  // ndbc_file_to_dataframe: drop_duplicates(subset='datetime', keep='first')

  function Stamps(rows: seq<Row>): (r: seq<Stamp>)
    ensures |r| == |rows|
  {
    seq(|rows|, i requires 0 <= i < |rows| => rows[i].stamp)
  }

  /** Keeps a row unless an earlier kept row has its timestamp. */
  function DropDuplicates(rows: seq<Row>): seq<Row>
    decreases |rows|
  {
    if rows == [] then []
    else
      var kept := DropDuplicates(rows[..|rows| - 1]);
      if rows[|rows| - 1].stamp in Stamps(kept) then kept else kept + [rows[|rows| - 1]]
  }

  /** No earlier row has the same timestamp as row `i`. */
  ghost predicate FirstOfStamp(rows: seq<Row>, i: nat)
    requires i < |rows|
  {
    forall j :: 0 <= j < i ==> rows[j].stamp != rows[i].stamp
  }

  /** Reference definition: the rows that are the first with their
      timestamp, in order. */
  ghost function FirstOccurrences(rows: seq<Row>): seq<Row>
    decreases |rows|
  {
    if rows == [] then []
    else FirstOccurrences(rows[..|rows| - 1]) + (if FirstOfStamp(rows, |rows| - 1) then [rows[|rows| - 1]] else [])
  }

  /** The kept rows have the same timestamps as all rows. */
  lemma {:induction false} DropDuplicatesStamps(rows: seq<Row>)
    ensures forall st :: st in Stamps(DropDuplicates(rows)) <==> st in Stamps(rows)
    decreases |rows|
  {
    if rows != [] {
      var init := rows[..|rows| - 1];
      DropDuplicatesStamps(init);
      var kept := DropDuplicates(init);
      assert Stamps(rows) == Stamps(init) + [rows[|rows| - 1].stamp];
      if rows[|rows| - 1].stamp !in Stamps(kept) {
        assert Stamps(kept + [rows[|rows| - 1]]) == Stamps(kept) + [rows[|rows| - 1].stamp];
      }
    }
  }

  /** Dropping duplicates keeps exactly the first row of every timestamp,
      in order. */
  lemma {:induction false} DropDuplicatesKeepsFirst(rows: seq<Row>)
    ensures DropDuplicates(rows) == FirstOccurrences(rows)
    decreases |rows|
  {
    if rows != [] {
      var init := rows[..|rows| - 1];
      var last := rows[|rows| - 1];
      DropDuplicatesKeepsFirst(init);
      DropDuplicatesStamps(init);
      if last.stamp in Stamps(init) {
        var j :| 0 <= j < |init| && Stamps(init)[j] == last.stamp;
        assert rows[j].stamp == last.stamp;
        assert !FirstOfStamp(rows, |rows| - 1);
      } else {
        forall j | 0 <= j < |rows| - 1 ensures rows[j].stamp != last.stamp {
          assert Stamps(init)[j] == rows[j].stamp;
        }
      }
    }
  }

  /** The kept rows keep their order and have no repeated timestamp. */
  lemma {:induction false} DropDuplicatesDistinct(rows: seq<Row>)
    ensures IsSubseq(DropDuplicates(rows), rows)
    ensures Distinct(Stamps(DropDuplicates(rows)))
    decreases |rows|
  {
    if rows != [] {
      var init := rows[..|rows| - 1];
      var last := rows[|rows| - 1];
      var kept := DropDuplicates(init);
      DropDuplicatesDistinct(init);
      assert rows == init + [last];
      SubseqAppend(kept, init, last);
      if last.stamp !in Stamps(kept) {
        var s := Stamps(kept + [last]);
        assert s == Stamps(kept) + [last.stamp];
        forall i, j | 0 <= i < j < |s| ensures s[i] != s[j] {
          if j == |s| - 1 {
            assert s[i] == Stamps(kept)[i];
          }
        }
      }
    }
  }

  /** pandas refuses a frame without columns: given rows, the constructor
      raises ValueError; without rows, the lookup of the `datetime` column
      raises KeyError. */
  const NoColumnsForRows := ValueError("0 columns passed")
  const NoDatetimeColumn := KeyError("datetime")

  /** ndbc_file_to_dataframe: the parse, with repeated timestamps dropped. */
  function NdbcFileToDataframe(lines: seq<string>): (r: Result<Parsed>)
    ensures r.Ok? <==> ParseLines(lines).Ok? && ParseLines(lines).value.header != []
    ensures ParseLines(lines).Err? ==> r == ParseLines(lines)
    ensures ParseLines(lines) == Ok(Parsed([], [])) ==> r == Err(NoDatetimeColumn)
    ensures ParseLines(lines).Ok? && ParseLines(lines).value.header == [] && ParseLines(lines).value.rows != [] ==>
              r == Err(NoColumnsForRows)
    ensures r.Ok? ==> r.value.header == ParseLines(lines).value.header
                      && Distinct(Stamps(r.value.rows))
                      && IsSubseq(r.value.rows, ParseLines(lines).value.rows)
                      && forall st :: st in Stamps(r.value.rows) <==> st in Stamps(ParseLines(lines).value.rows)
  {
    match ParseLines(lines)
    case Err(e) => Err(e)
    case Ok(parsed) =>
      if parsed.header == [] then
        if parsed.rows == [] then Err(NoDatetimeColumn) else Err(NoColumnsForRows)
      else
        DropDuplicatesDistinct(parsed.rows);
        DropDuplicatesStamps(parsed.rows);
        Ok(Parsed(parsed.header, DropDuplicates(parsed.rows)))
  }

  /** A file with neither a header line nor a data line has no `datetime`
      column to deduplicate on. */
  lemma EmptyFileHasNoFrame()
    ensures NdbcFileToDataframe([]) == Err(NoDatetimeColumn)
  {
  }

  // ---------------------------------------------------------------------
  // metadata_from_ndbc_filename

  /** `os.path.split(path)[1]`: the text after the last '/'. */
  function BaseName(path: string): (r: string)
    ensures '/' !in r
    decreases |path|
  {
    if path == [] || path[|path| - 1] == '/' then []
    else BaseName(path[..|path| - 1]) + [path[|path| - 1]]
  }

  /** `f.split('_')[0]`: the text before the first '_'. */
  function BeforeUnderscore(f: string): (r: string)
    ensures '_' !in r
  {
    if f == [] || f[0] == '_' then [] else [f[0]] + BeforeUnderscore(f[1..])
  }

  /** metadata_from_ndbc_filename: the first three characters, lower-cased,
      name the parameter; the rest of the prefix names the station. */
  function MetadataFromNdbcFilename(path: string): (r: (string, string)) {
    var f := BeforeUnderscore(BaseName(path));
    (Lower(if |f| < 3 then f else f[..3]), if |f| < 3 then [] else f[3..])
  }

  lemma {:induction false} BaseNameAfterSlash(dir: string, name: string)
    requires '/' !in name
    ensures BaseName(dir + "/" + name) == name
    decreases |name|
  {
    if name == [] {
      assert (dir + "/" + name)[|dir + "/" + name| - 1] == '/';
    } else {
      var path := dir + "/" + name;
      var init := name[..|name| - 1];
      assert path[..|path| - 1] == dir + "/" + init;
      BaseNameAfterSlash(dir, init);
      assert name == init + [name[|name| - 1]];
    }
  }

  lemma {:induction false} BeforeFirstUnderscore(prefix: string, rest: string)
    requires '_' !in prefix
    ensures BeforeUnderscore(prefix + "_" + rest) == prefix
    decreases |prefix|
  {
    if prefix != [] {
      assert (prefix + "_" + rest)[1..] == prefix[1..] + "_" + rest;
      BeforeFirstUnderscore(prefix[1..], rest);
      assert prefix == [prefix[0]] + prefix[1..];
    }
  }

  /** A file named `<dir>/<parameter><station>_<rest>` yields the parameter,
      lower-cased, and the station. */
  lemma MetadataRoundTrip(dir: string, parameter: string, station: string, rest: string)
    requires |parameter| == 3
    requires '/' !in parameter && '/' !in station && '/' !in rest
    requires '_' !in parameter && '_' !in station
    ensures MetadataFromNdbcFilename(dir + "/" + parameter + station + "_" + rest) == (Lower(parameter), station)
  {
    var name := parameter + station + "_" + rest;
    assert dir + "/" + parameter + station + "_" + rest == dir + "/" + name;
    BaseNameAfterSlash(dir, name);
    BeforeFirstUnderscore(parameter + station, rest);
    assert (parameter + station)[..3] == parameter;
    assert (parameter + station)[3..] == station;
  }
}
