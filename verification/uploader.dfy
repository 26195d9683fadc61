/** The reconciliation driver (external_data_to_database.py). The database is
    abstracted: its query answers are the functions of a `Store`, and the
    cursor is the log of update statements it executed. */
module Uploader {
  import opened Outcomes
  import opened Strings
  import opened Aligner
  import opened SqlQuery

  // ---------------------------------------------------------------------
  // Name mappings

  /** Data parameter name to engineering-table column. */
  const ParameterMapping: map<string, string> := map["sst" := "sst", "sss" := "sal", "sal" := "sal"]

  /** Engineering-table column to data parameter name. */
  const InverseParameterMapping: map<string, string> := map["sal" := "sss", "sst" := "sst"]

  /** Every mapped parameter lands on a column the statement builders accept,
      every accepted column has an inverse, and mapping after the inverse
      gives the column back. */
  lemma MappingsAgree()
    ensures forall p :: p in ParameterMapping ==> IsParameterColumn(ParameterMapping[p])
    ensures forall c :: IsParameterColumn(c) <==> c in InverseParameterMapping
    ensures forall c :: c in InverseParameterMapping ==>
              InverseParameterMapping[c] in ParameterMapping && ParameterMapping[InverseParameterMapping[c]] == c
  {
  }

  // ---------------------------------------------------------------------
  // Constants of the alignment (minutes)

  /** Header times are shifted forward by this much before alignment. */
  const HeaderOffset := 17
  /** Largest distance, inclusive, between a shifted header time and its sample. */
  const Tolerance := 20
  /** Added to the last sample time to close the date range. */
  const RangePadding := 10

  // ---------------------------------------------------------------------
  // Data

  datatype DateRange = DateRange(start: int, end: int)

  /** One row of the `datasetinfo` query: system number and start date. */
  datatype Deployment = Deployment(systemNum: int, startDate: string)

  /** What the database answers: the deployments of a station overlapping a
      range (in start-date order), the header times of a table in a range
      (ascending), and whether a table exists. */
  datatype Store = Store(
    datasetinfo: (string, DateRange) -> seq<Deployment>,
    hdrtimes: (string, DateRange) -> seq<int>,
    tableExists: string -> bool)

  /** The sensor data frame: its datetime index (equal to its `datetime`
      column) and its parameter columns. */
  datatype Frame = Frame(times: seq<int>, columns: map<string, seq<real>>)

  /** Every column has one value per row, and the datetime index has no
      repeats (the frame was de-duplicated on datetime). */
  predicate WellFormed(f: Frame) {
    && (forall c :: c in f.columns ==> |f.columns[c]| == |f.times|)
    && Distinct(f.times)
  }

  /** One sensor row of one parameter. */
  datatype Sample = Sample(time: int, value: real)

  /** The dictionary update_table returns. */
  datatype Metadata = Metadata(station: string, parameters: seq<string>, dateRange: DateRange, tables: seq<string>)

  // ---------------------------------------------------------------------
  // _get_date_range

  /** Indexing the first datetime of an empty frame. */
  const EmptyData := IndexError("data['datetime'][0]")

  /** _get_date_range: first sample time, and last sample time plus the padding. */
  function DateRangeOf(times: seq<int>): (r: Result<DateRange>)
    ensures r.Ok? <==> |times| > 0
    ensures r.Err? ==> r.error == EmptyData
  {
    if |times| == 0 then Err(EmptyData)
    else Ok(DateRange(times[0], times[|times| - 1] + RangePadding))
  }

  /** For time-ordered data the range covers every sample, with the padding
      to spare after the last one. */
  lemma DateRangeCovers(times: seq<int>)
    requires Sorted(times) && |times| > 0
    ensures var r := DateRangeOf(times).value;
            && r.end - r.start == times[|times| - 1] - times[0] + RangePadding
            && forall t :: t in times ==> r.start <= t && t + RangePadding <= r.end
  {
  }

  // ---------------------------------------------------------------------
  // _test_for_eng_table_existence

  /** Python's `list.remove`: drops the first element equal to `x`. */
  function RemoveFirst(l: seq<string>, x: string): (r: seq<string>)
    ensures x in l ==> |r| == |l| - 1
    ensures x !in l ==> r == l
  {
    if l == [] then []
    else if l[0] == x then l[1..]
    else [l[0]] + RemoveFirst(l[1..], x)
  }

  /** `list.remove` takes away exactly one occurrence of `x`. */
  lemma {:induction false} RemoveFirstCounts(l: seq<string>, x: string)
    ensures multiset(RemoveFirst(l, x)) == multiset(l) - multiset{x}
    decreases |l|
  {
    if l != [] {
      assert l == [l[0]] + l[1..];
      if l[0] != x {
        RemoveFirstCounts(l[1..], x);
      }
    }
  }

  /** The `for` loop over a list that it shrinks: Python's iterator walks an
      index `i` over the current list, so after a removal the element that
      moved into position `i` is never looked at. */
  function Sweep(l: seq<string>, i: nat, present: string -> bool): seq<string>
    decreases |l| - i
  {
    if i >= |l| then l
    else if present(l[i]) then Sweep(l, i + 1, present)
    else Sweep(RemoveFirst(l, l[i]), i + 1, present)
  }

  lemma {:induction false} RemoveFirstSubseq(l: seq<string>, x: string)
    ensures IsSubseq(RemoveFirst(l, x), l)
    decreases |l|
  {
    if l != [] {
      assert l == [l[0]] + l[1..];
      if l[0] == x {
        SubseqRefl(l[1..]);
        SubseqSkip(l[1..], l[0], l[1..]);
      } else {
        RemoveFirstSubseq(l[1..], x);
        SubseqKeep(RemoveFirst(l[1..], x), l[0], l[1..]);
      }
    }
  }

  /** The filtered list keeps the order of the built list. */
  lemma {:induction false} SweepSubseq(l: seq<string>, i: nat, present: string -> bool)
    ensures IsSubseq(Sweep(l, i, present), l)
    decreases |l| - i
  {
    if i >= |l| {
      SubseqRefl(l);
    } else if present(l[i]) {
      SweepSubseq(l, i + 1, present);
    } else {
      var r := RemoveFirst(l, l[i]);
      SweepSubseq(r, i + 1, present);
      RemoveFirstSubseq(l, l[i]);
      SubseqTrans(Sweep(r, i + 1, present), r, l);
    }
  }

  /** The filter only removes: a table that exists keeps all its
      occurrences, and no table gains any. */
  lemma {:induction false} SweepRemovesOnlyMissing(l: seq<string>, i: nat, present: string -> bool)
    ensures forall x :: multiset(Sweep(l, i, present))[x] <= multiset(l)[x]
    ensures forall x :: present(x) ==> multiset(Sweep(l, i, present))[x] == multiset(l)[x]
    decreases |l| - i
  {
    if i < |l| {
      if present(l[i]) {
        SweepRemovesOnlyMissing(l, i + 1, present);
      } else {
        SweepRemovesOnlyMissing(RemoveFirst(l, l[i]), i + 1, present);
        RemoveFirstCounts(l, l[i]);
      }
    }
  }

  /** Two missing tables in a row: the first is removed, and the second
      moves into the slot the loop has already passed, so it survives. */
  lemma SweepSkipsNext(a: string, b: string, present: string -> bool)
    requires !present(a) && !present(b)
    ensures Sweep([a, b], 0, present) == [b]
  {
    assert RemoveFirst([a, b], a) == [b];
  }

  /** Reference reading of the loop on a list without repeats: a table that
      fails the check is dropped, and the table right after it is kept
      without being checked. */
  function Survivors(l: seq<string>, present: string -> bool): seq<string>
    decreases |l|
  {
    if l == [] then []
    else if present(l[0]) then [l[0]] + Survivors(l[1..], present)
    else if |l| == 1 then []
    else [l[1]] + Survivors(l[2..], present)
  }

  lemma {:induction false} RemoveFirstAfter(done: seq<string>, x: string, rest: seq<string>)
    requires x !in done
    ensures RemoveFirst(done + [x] + rest, x) == done + rest
    decreases |done|
  {
    var l := done + [x] + rest;
    if done == [] {
      assert l[0] == x && l[1..] == rest;
    } else {
      assert l[0] == done[0] && done[0] != x;
      assert l[1..] == done[1..] + [x] + rest;
      RemoveFirstAfter(done[1..], x, rest);
      assert RemoveFirst(l, x) == [done[0]] + RemoveFirst(l[1..], x);
      assert done == [done[0]] + done[1..];
    }
  }

  lemma {:induction false} SweepIsSurvivorsFrom(done: seq<string>, l: seq<string>, present: string -> bool)
    requires Distinct(l) && forall x :: x in l ==> x !in done
    ensures Sweep(done + l, |done|, present) == done + Survivors(l, present)
    decreases |l|
  {
    var whole := done + l;
    if l == [] {
      assert whole == done;
    } else if present(l[0]) {
      var done' := done + [l[0]];
      assert whole[|done|] == l[0];
      assert Sweep(whole, |done|, present) == Sweep(whole, |done'|, present);
      assert whole == done' + l[1..];
      SweepIsSurvivorsFrom(done', l[1..], present);
      assert Survivors(l, present) == [l[0]] + Survivors(l[1..], present);
    } else {
      var rest := done + l[1..];
      assert whole[|done|] == l[0];
      assert Sweep(whole, |done|, present) == Sweep(RemoveFirst(whole, l[0]), |done| + 1, present);
      assert whole == done + [l[0]] + l[1..];
      RemoveFirstAfter(done, l[0], l[1..]);
      if |l| == 1 {
        assert rest == done;
        assert Survivors(l, present) == [];
      } else {
        var done' := done + [l[1]];
        assert rest == done' + l[2..];
        SweepIsSurvivorsFrom(done', l[2..], present);
        assert Survivors(l, present) == [l[1]] + Survivors(l[2..], present);
      }
    }
  }

  /** On a list without repeats the loop computes the reference reading. */
  lemma SweepIsSurvivors(l: seq<string>, present: string -> bool)
    requires Distinct(l)
    ensures Sweep(l, 0, present) == Survivors(l, present)
  {
    SweepIsSurvivorsFrom([], l, present);
    assert [] + l == l;
  }

  // ---------------------------------------------------------------------
  // _get_engineering_table_names

  /** The table name of every deployment, in query order. */
  function TableNames(station: string, deployments: seq<Deployment>): (names: seq<string>)
    ensures |names| == |deployments|
  {
    seq(|deployments|, i requires 0 <= i < |deployments| =>
      EngineeringTableName(station, deployments[i].systemNum, deployments[i].startDate))
  }

  /** Deployments with different system numbers or start dates give
      different table names. */
  lemma TableNamesDistinct(station: string, deployments: seq<Deployment>)
    requires Distinct(deployments)
    ensures Distinct(TableNames(station, deployments))
  {
    var names := TableNames(station, deployments);
    forall i, j | 0 <= i < j < |names|
      ensures names[i] != names[j]
    {
      var a, b := deployments[i], deployments[j];
      if names[i] == names[j] {
        SameStationInjective(station, a.systemNum, a.startDate, b.systemNum, b.startDate);
      }
    }
  }

  /** Every table that survives the filter is the name of a deployment the
      `datasetinfo` query returned. */
  lemma SweptNamesComeFromDeployments(station: string, deployments: seq<Deployment>, present: string -> bool)
    ensures forall t :: t in Sweep(TableNames(station, deployments), 0, present) ==>
              exists d :: d in deployments && t == EngineeringTableName(station, d.systemNum, d.startDate)
  {
    var names := TableNames(station, deployments);
    SweepSubseq(names, 0, present);
    forall t | t in Sweep(names, 0, present)
      ensures exists d :: d in deployments && t == EngineeringTableName(station, d.systemNum, d.startDate)
    {
      SubseqIn(Sweep(names, 0, present), names, t);
      var i :| 0 <= i < |names| && names[i] == t;
      assert deployments[i] in deployments;
    }
  }

  // ---------------------------------------------------------------------
  // The sensor samples offered to the aligner

  /** `data[(data[p] > 0)]` for one column: the rows with a positive value. */
  function PositiveRows(times: seq<int>, values: seq<real>): seq<Sample>
    requires |times| == |values|
  {
    if times == [] then []
    else (if values[0] > 0.0 then [Sample(times[0], values[0])] else []) + PositiveRows(times[1..], values[1..])
  }

  /** A sample is offered exactly when it is a row of the frame with a
      strictly positive value. */
  lemma {:induction false} PositiveRowsExact(times: seq<int>, values: seq<real>)
    requires |times| == |values|
    ensures forall s :: s in PositiveRows(times, values) <==>
              exists i :: 0 <= i < |times| && times[i] == s.time && values[i] == s.value && s.value > 0.0
  {
    if times != [] {
      PositiveRowsExact(times[1..], values[1..]);
      forall s ensures s in PositiveRows(times, values) <==>
                       exists i :: 0 <= i < |times| && times[i] == s.time && values[i] == s.value && s.value > 0.0
      {
        if s in PositiveRows(times[1..], values[1..]) {
          var i :| 0 <= i < |times| - 1 && times[1..][i] == s.time && values[1..][i] == s.value && s.value > 0.0;
          assert times[i + 1] == s.time && values[i + 1] == s.value;
        }
        if exists i :: 0 <= i < |times| && times[i] == s.time && values[i] == s.value && s.value > 0.0 {
          var i :| 0 <= i < |times| && times[i] == s.time && values[i] == s.value && s.value > 0.0;
          if i > 0 {
            assert times[1..][i - 1] == s.time && values[1..][i - 1] == s.value;
          }
        }
      }
    }
  }

  /** The column lookup `data[p]` fails on an unknown column. */
  function Positive(data: Frame, p: string): (r: Result<seq<Sample>>)
    requires WellFormed(data)
    ensures r.Ok? <==> p in data.columns
    ensures r.Err? ==> r.error == KeyError(p)
  {
    if p !in data.columns then Err(KeyError(p)) else Ok(PositiveRows(data.times, data.columns[p]))
  }

  function Times(sub: seq<Sample>): (ts: seq<int>)
    ensures |ts| == |sub|
  {
    seq(|sub|, i requires 0 <= i < |sub| => sub[i].time)
  }

  /** Looking up a time that is not in the datetime index. */
  const MissingTime := KeyError("dtime")

  /** `sub_data[p][dtime]`: the value recorded at a sample time. */
  function ValueAt(sub: seq<Sample>, t: int): (r: Result<real>)
    ensures r.Ok? ==> Sample(t, r.value) in sub
    ensures r.Err? ==> r.error == MissingTime
    decreases |sub|
  {
    if sub == [] then Err(MissingTime)
    else if sub[0].time == t then Ok(sub[0].value)
    else ValueAt(sub[1..], t)
  }

  /** The lookup succeeds for every time of the samples. */
  lemma {:induction false} ValueAtFound(sub: seq<Sample>, t: int)
    requires t in Times(sub)
    ensures ValueAt(sub, t).Ok?
    decreases |sub|
  {
    if sub[0].time != t {
      assert Times(sub) == [sub[0].time] + Times(sub[1..]);
      ValueAtFound(sub[1..], t);
    }
  }

  /** The header times shifted forward by the offset. */
  function Shift(hdr: seq<int>): (r: seq<int>)
    ensures |r| == |hdr|
  {
    seq(|hdr|, i requires 0 <= i < |hdr| => hdr[i] + HeaderOffset)
  }

  // ---------------------------------------------------------------------
  // One table and one parameter: the body of update_table's inner loop

  /** `[htime for htime, atime in zip(hdrtimes, aligned_dates) if atime]` */
  function MatchedKeys(hdr: seq<int>, aligned: seq<Option<int>>): seq<int>
    decreases |hdr|
  {
    if hdr == [] || aligned == [] then []
    else (if aligned[0].Some? then [hdr[0]] else []) + MatchedKeys(hdr[1..], aligned[1..])
  }

  /** `[sub_data[p][dtime] for dtime in aligned_dates if dtime]`, which
      raises on the first time missing from the index. */
  function MatchedValues(sub: seq<Sample>, aligned: seq<Option<int>>): Result<seq<real>>
  {
    if aligned == [] then Ok([])
    else if aligned[0].None? then MatchedValues(sub, aligned[1..])
    else match ValueAt(sub, aligned[0].value)
      case Err(e) => Err(e)
      case Ok(v) =>
        match MatchedValues(sub, aligned[1..])
        case Err(e) => Err(e)
        case Ok(rest) => Ok([v] + rest)
  }

  /** The values are all found when every aligned time is a sample time. */
  lemma {:induction false} MatchedValuesFound(sub: seq<Sample>, aligned: seq<Option<int>>)
    requires forall a :: a in aligned && a.Some? ==> a.value in Times(sub)
    ensures MatchedValues(sub, aligned).Ok?
  {
    if aligned != [] {
      assert forall a :: a in aligned[1..] ==> a in aligned;
      MatchedValuesFound(sub, aligned[1..]);
      if aligned[0].Some? {
        ValueAtFound(sub, aligned[0].value);
      }
    }
  }

  /** The updates of one table for one parameter, or the exception that
      stops update_table: an unknown column, an empty sample set facing
      header times, or a parameter without a mapping. */
  function Unit(store: Store, table: string, range: DateRange, data: Frame, p: string): Result<seq<Execution>>
    requires WellFormed(data)
  {
    match Positive(data, p)
    case Err(e) => Err(e)
    case Ok(sub) =>
      var hdr := store.hdrtimes(table, range);
      match Aligned(Times(sub), Shift(hdr), Some(Tolerance))
      case Err(e) => Err(e)
      case Ok(aligned) =>
        match MatchedValues(sub, aligned)
        case Err(e) => Err(e)
        case Ok(values) =>
          if p !in ParameterMapping then Err(KeyError(p))
          else
            match GenerateUpdateSql(table, ParameterMapping[p])
            case Err(e) => Err(e)
            case Ok(stmt) => Ok(Zip(stmt, MatchedKeys(hdr, aligned), values))
  }

  /** Some sample lies within the tolerance of the shifted header time. */
  ghost predicate Matches(sub: seq<Sample>, h: int) {
    exists y :: y in Times(sub) && Dist(y, h + HeaderOffset) <= Tolerance
  }

  /** The value of the sample whose time is the least nearest to the shifted
      header time. */
  ghost function MatchedValue(sub: seq<Sample>, h: int): (v: real)
    requires Matches(sub, h)
    ensures forall t :: IsLeastNearest(Times(sub), h + HeaderOffset, t) ==> ValueAt(sub, t) == Ok(v)
  {
    LeastNearestExists(Times(sub), h + HeaderOffset);
    var t :| IsLeastNearest(Times(sub), h + HeaderOffset, t);
    ValueAtFound(sub, t);
    assert forall t' :: IsLeastNearest(Times(sub), h + HeaderOffset, t') ==> ValueAt(sub, t') == ValueAt(sub, t) by {
      forall t' | IsLeastNearest(Times(sub), h + HeaderOffset, t') ensures ValueAt(sub, t') == ValueAt(sub, t) {
        LeastNearestUnique(Times(sub), Times(sub), h + HeaderOffset, t', t);
      }
    }
    ValueAt(sub, t).value
  }

  /** Reference definition of the updates: walking the header times in
      order, one update for each header time some sample matches, keyed by
      the header time itself and carrying the value of the nearest sample. */
  ghost function ReferenceUpdates(stmt: Statement, hdr: seq<int>, sub: seq<Sample>): seq<Execution>
    decreases |hdr|
  {
    if hdr == [] then []
    else (if Matches(sub, hdr[0]) then [Execution(stmt, MatchedValue(sub, hdr[0]), hdr[0])] else [])
         + ReferenceUpdates(stmt, hdr[1..], sub)
  }

  function Keys(log: seq<Execution>): (keys: seq<int>)
    ensures |keys| == |log|
  {
    seq(|log|, i requires 0 <= i < |log| => log[i].key)
  }

  /** Each reference update carries the statement, is keyed by a header
      time some sample matches, and carries the value of a sample at the
      least nearest time to its shifted key. */
  lemma {:induction false} ReferenceEntries(stmt: Statement, hdr: seq<int>, sub: seq<Sample>)
    ensures forall e :: e in ReferenceUpdates(stmt, hdr, sub) ==>
              && e.statement == stmt
              && e.key in hdr
              && Matches(sub, e.key)
              && exists s :: s in sub && s.value == e.value && IsLeastNearest(Times(sub), e.key + HeaderOffset, s.time)
    decreases |hdr|
  {
    if hdr != [] {
      var tail := ReferenceUpdates(stmt, hdr[1..], sub);
      ReferenceEntries(stmt, hdr[1..], sub);
      assert forall h :: h in hdr[1..] ==> h in hdr;
      if Matches(sub, hdr[0]) {
        LeastNearestExists(Times(sub), hdr[0] + HeaderOffset);
        var t :| IsLeastNearest(Times(sub), hdr[0] + HeaderOffset, t);
        ValueAtFound(sub, t);
        assert Sample(t, ValueAt(sub, t).value) in sub;
      }
    }
  }

  /** The keys of the reference updates keep header order. */
  lemma {:induction false} ReferenceKeysInOrder(stmt: Statement, hdr: seq<int>, sub: seq<Sample>)
    ensures IsSubseq(Keys(ReferenceUpdates(stmt, hdr, sub)), hdr)
    decreases |hdr|
  {
    var r := ReferenceUpdates(stmt, hdr, sub);
    if hdr != [] {
      var tail := ReferenceUpdates(stmt, hdr[1..], sub);
      ReferenceKeysInOrder(stmt, hdr[1..], sub);
      assert hdr == [hdr[0]] + hdr[1..];
      if Matches(sub, hdr[0]) {
        assert r == [Execution(stmt, MatchedValue(sub, hdr[0]), hdr[0])] + tail;
        assert Keys(r) == [hdr[0]] + Keys(tail);
        SubseqKeep(Keys(tail), hdr[0], hdr[1..]);
      } else {
        assert r == tail;
        SubseqSkip(Keys(tail), hdr[0], hdr[1..]);
      }
    }
  }

  /** The header times some sample matches, in header order. */
  ghost function MatchedHeaderTimes(hdr: seq<int>, sub: seq<Sample>): seq<int>
    decreases |hdr|
  {
    if hdr == [] then []
    else (if Matches(sub, hdr[0]) then [hdr[0]] else []) + MatchedHeaderTimes(hdr[1..], sub)
  }

  lemma {:induction false} MatchedHeaderTimesMembers(hdr: seq<int>, sub: seq<Sample>)
    ensures forall h :: h in hdr ==> (h in MatchedHeaderTimes(hdr, sub) <==> Matches(sub, h))
    ensures forall h :: h in MatchedHeaderTimes(hdr, sub) ==> h in hdr
    decreases |hdr|
  {
    if hdr != [] {
      MatchedHeaderTimesMembers(hdr[1..], sub);
      assert hdr == [hdr[0]] + hdr[1..];
    }
  }

  lemma {:induction false} ReferenceKeysFiltered(stmt: Statement, hdr: seq<int>, sub: seq<Sample>)
    ensures Keys(ReferenceUpdates(stmt, hdr, sub)) == MatchedHeaderTimes(hdr, sub)
    decreases |hdr|
  {
    if hdr != [] {
      var tail := ReferenceUpdates(stmt, hdr[1..], sub);
      ReferenceKeysFiltered(stmt, hdr[1..], sub);
      var head := if Matches(sub, hdr[0]) then [Execution(stmt, MatchedValue(sub, hdr[0]), hdr[0])] else [];
      assert ReferenceUpdates(stmt, hdr, sub) == head + tail;
      assert Keys(head + tail) == Keys(head) + Keys(tail);
    }
  }

  /** A header time is a key of the reference updates exactly when some
      sample matches it. */
  lemma ReferenceKeysMatched(stmt: Statement, hdr: seq<int>, sub: seq<Sample>)
    ensures forall h :: h in hdr ==> (h in Keys(ReferenceUpdates(stmt, hdr, sub)) <==> Matches(sub, h))
  {
    ReferenceKeysFiltered(stmt, hdr, sub);
    MatchedHeaderTimesMembers(hdr, sub);
  }

  /** Filtering keys and values by the same mask and zipping them gives the
      reference updates, once every slot holds the least nearest sample time
      exactly when one matches. */
  lemma {:induction false} PairsMatchReference(stmt: Statement, hdr: seq<int>, aligned: seq<Option<int>>, sub: seq<Sample>)
    requires |aligned| == |hdr|
    requires forall i :: 0 <= i < |hdr| ==>
               && (aligned[i].None? <==> !Matches(sub, hdr[i]))
               && (aligned[i].Some? ==> IsLeastNearest(Times(sub), hdr[i] + HeaderOffset, aligned[i].value))
    ensures MatchedValues(sub, aligned).Ok?
    ensures Zip(stmt, MatchedKeys(hdr, aligned), MatchedValues(sub, aligned).value) == ReferenceUpdates(stmt, hdr, sub)
    decreases |hdr|
  {
    if hdr != [] {
      assert forall i :: 0 <= i < |hdr| - 1 ==> hdr[1..][i] == hdr[i + 1] && aligned[1..][i] == aligned[i + 1];
      PairsMatchReference(stmt, hdr[1..], aligned[1..], sub);
      var keys, values := MatchedKeys(hdr[1..], aligned[1..]), MatchedValues(sub, aligned[1..]).value;
      if aligned[0].Some? {
        var t := aligned[0].value;
        ValueAtFound(sub, t);
        var v := ValueAt(sub, t).value;
        assert v == MatchedValue(sub, hdr[0]);
        assert MatchedKeys(hdr, aligned) == [hdr[0]] + keys;
        assert MatchedValues(sub, aligned) == Ok([v] + values);
        assert Zip(stmt, [hdr[0]] + keys, [v] + values) == [Execution(stmt, v, hdr[0])] + Zip(stmt, keys, values);
      } else {
        assert MatchedKeys(hdr, aligned) == keys;
        assert MatchedValues(sub, aligned).value == values;
      }
    }
  }

  /** The unit of work computes the reference updates whenever it succeeds. */
  lemma UnitMatchesReference(store: Store, table: string, range: DateRange, data: Frame, p: string)
    requires WellFormed(data)
    requires Unit(store, table, range, data, p).Ok?
    ensures && Positive(data, p).Ok? && p in ParameterMapping
            && GenerateUpdateSql(table, ParameterMapping[p]).Ok?
            && Unit(store, table, range, data, p).value
               == ReferenceUpdates(GenerateUpdateSql(table, ParameterMapping[p]).value,
                                   store.hdrtimes(table, range), Positive(data, p).value)
  {
    var sub := Positive(data, p).value;
    var hdr := store.hdrtimes(table, range);
    var pivots := Shift(hdr);
    AlignedFailure(Times(sub), pivots, Some(Tolerance));
    AlignedSlots(Times(sub), pivots, Some(Tolerance));
    var aligned := Aligned(Times(sub), pivots, Some(Tolerance)).value;
    forall i | 0 <= i < |hdr|
      ensures aligned[i].None? <==> !Matches(sub, hdr[i])
    {
      assert pivots[i] == hdr[i] + HeaderOffset;
    }
    PairsMatchReference(GenerateUpdateSql(table, ParameterMapping[p]).value, hdr, aligned, sub);
  }

  /** When update_table stops inside a unit, and when a unit writes nothing:
      an unknown column fails first; then a frame with no positive value
      fails as soon as the table has header times (the aligner indexes an
      empty array); then an unmapped parameter fails. A table without header
      times in the range yields no update. */
  lemma UnitOutcomes(store: Store, table: string, range: DateRange, data: Frame, p: string)
    requires WellFormed(data)
    ensures p !in data.columns ==> Unit(store, table, range, data, p) == Err(KeyError(p))
    ensures p in data.columns && |Positive(data, p).value| == 0 && |store.hdrtimes(table, range)| > 0 ==>
              Unit(store, table, range, data, p) == Err(EmptySearch)
    ensures p in data.columns && (|Positive(data, p).value| > 0 || |store.hdrtimes(table, range)| == 0) ==>
              (Unit(store, table, range, data, p).Ok? <==> p in ParameterMapping)
    ensures p in data.columns && p in ParameterMapping && |store.hdrtimes(table, range)| == 0 ==>
              Unit(store, table, range, data, p) == Ok([])
  {
    MappingsAgree();
    if p in data.columns {
      var sub := Positive(data, p).value;
      var hdr := store.hdrtimes(table, range);
      AlignedFailure(Times(sub), Shift(hdr), Some(Tolerance));
      if Aligned(Times(sub), Shift(hdr), Some(Tolerance)).Ok? {
        AlignedMembers(Times(sub), Shift(hdr), Some(Tolerance));
        MatchedValuesFound(sub, Aligned(Times(sub), Shift(hdr), Some(Tolerance)).value);
      }
    }
  }

  /** An update writes `sst` or `sal` with the success flag, into a listed
      table, at one of that table's header times, a positive value. */
  predicate WritesWithin(e: Execution, tables: seq<string>, store: Store, range: DateRange) {
    && e.statement.table in tables
    && IsParameterColumn(e.statement.column)
    && e.statement.flag == Literal(GoodFlag)
    && e.key in store.hdrtimes(e.statement.table, range)
    && e.value > 0.0
  }

  /** Every update of a unit writes into its own table, at one of its header
      times, a positive sample value. */
  lemma UnitWrites(store: Store, table: string, range: DateRange, data: Frame, p: string)
    requires WellFormed(data)
    requires Unit(store, table, range, data, p).Ok?
    ensures forall e :: e in Unit(store, table, range, data, p).value ==> WritesWithin(e, [table], store, range)
  {
    UnitMatchesReference(store, table, range, data, p);
    var stmt := GenerateUpdateSql(table, ParameterMapping[p]).value;
    var hdr := store.hdrtimes(table, range);
    var sub := Positive(data, p).value;
    var r := ReferenceUpdates(stmt, hdr, sub);
    ReferenceEntries(stmt, hdr, sub);
    PositiveRowsExact(data.times, data.columns[p]);
    forall e | e in r ensures WritesWithin(e, [table], store, range) {
      var s :| s in sub && s.value == e.value && IsLeastNearest(Times(sub), e.key + HeaderOffset, s.time);
    }
  }

  // ---------------------------------------------------------------------
  // update_table: tables in list order, parameters in caller order

  /** The updates executed so far and the exception that stopped the loops. */
  datatype Run = Run(log: seq<Execution>, failure: Option<Error>)

  /** The inner loop over the parameters of one table. */
  function ParamsRun(store: Store, table: string, range: DateRange, data: Frame, params: seq<string>): Run
    requires WellFormed(data)
    decreases |params|
  {
    if params == [] then Run([], None)
    else
      var prev := ParamsRun(store, table, range, data, params[..|params| - 1]);
      if prev.failure.Some? then prev
      else match Unit(store, table, range, data, params[|params| - 1])
        case Err(e) => Run(prev.log, Some(e))
        case Ok(updates) => Run(prev.log + updates, None)
  }

  /** The outer loop over the tables. */
  function TablesRun(store: Store, tables: seq<string>, range: DateRange, data: Frame, params: seq<string>): Run
    requires WellFormed(data)
    decreases |tables|
  {
    if tables == [] then Run([], None)
    else
      var prev := TablesRun(store, tables[..|tables| - 1], range, data, params);
      if prev.failure.Some? then prev
      else
        var last := ParamsRun(store, tables[|tables| - 1], range, data, params);
        Run(prev.log + last.log, last.failure)
  }

  lemma AppendAssoc<T>(a: seq<T>, b: seq<T>, c: seq<T>)
    ensures a + (b + c) == (a + b) + c
  {
  }

  /** One more parameter appends that unit's updates. */
  lemma ParamsStep(store: Store, table: string, range: DateRange, data: Frame, params: seq<string>, j: nat)
    requires WellFormed(data) && j < |params|
    requires ParamsRun(store, table, range, data, params[..j]).failure.None?
    requires Unit(store, table, range, data, params[j]).Ok?
    ensures ParamsRun(store, table, range, data, params[..j + 1])
            == Run(ParamsRun(store, table, range, data, params[..j]).log + Unit(store, table, range, data, params[j]).value, None)
  {
    assert params[..j + 1][..j] == params[..j];
  }

  /** The same step, stated on the log of executed updates. */
  lemma ParamsStepLog(store: Store, table: string, range: DateRange, data: Frame, params: seq<string>, j: nat,
                      base: seq<Execution>, before: seq<Execution>, after: seq<Execution>)
    requires WellFormed(data) && j < |params|
    requires ParamsRun(store, table, range, data, params[..j]).failure.None?
    requires before == base + ParamsRun(store, table, range, data, params[..j]).log
    requires var u := Unit(store, table, range, data, params[j]); u.Ok? && after == before + u.value
    ensures ParamsRun(store, table, range, data, params[..j + 1]).failure.None?
    ensures after == base + ParamsRun(store, table, range, data, params[..j + 1]).log
  {
    ParamsStep(store, table, range, data, params, j);
    AppendAssoc(base, ParamsRun(store, table, range, data, params[..j]).log, Unit(store, table, range, data, params[j]).value);
  }

  /** A failing parameter ends the inner loop with its exception. */
  lemma ParamsStop(store: Store, table: string, range: DateRange, data: Frame, params: seq<string>, j: nat)
    requires WellFormed(data) && j < |params|
    requires ParamsRun(store, table, range, data, params[..j]).failure.None?
    requires Unit(store, table, range, data, params[j]).Err?
    ensures ParamsRun(store, table, range, data, params)
            == Run(ParamsRun(store, table, range, data, params[..j]).log, Some(Unit(store, table, range, data, params[j]).error))
  {
    assert params[..j + 1][..j] == params[..j];
    ParamsFailureSticks(store, table, range, data, params, j + 1);
  }

  /** Once a parameter fails, later parameters change nothing. */
  lemma {:induction false} ParamsFailureSticks(store: Store, table: string, range: DateRange, data: Frame, params: seq<string>, j: nat)
    requires WellFormed(data) && j <= |params|
    requires ParamsRun(store, table, range, data, params[..j]).failure.Some?
    ensures ParamsRun(store, table, range, data, params) == ParamsRun(store, table, range, data, params[..j])
    decreases |params|
  {
    if j < |params| {
      var init := params[..|params| - 1];
      assert init[..j] == params[..j];
      ParamsFailureSticks(store, table, range, data, init, j);
    } else {
      assert params[..j] == params;
    }
  }

  /** One more table appends the updates of its parameters, and stops the
      outer loop when one of them failed. */
  lemma TablesStepLog(store: Store, tables: seq<string>, range: DateRange, data: Frame, params: seq<string>, i: nat,
                      base: seq<Execution>, before: seq<Execution>, after: seq<Execution>)
    requires WellFormed(data) && i < |tables|
    requires TablesRun(store, tables[..i], range, data, params).failure.None?
    requires before == base + TablesRun(store, tables[..i], range, data, params).log
    requires after == before + ParamsRun(store, tables[i], range, data, params).log
    ensures TablesRun(store, tables[..i + 1], range, data, params).failure
            == ParamsRun(store, tables[i], range, data, params).failure
    ensures after == base + TablesRun(store, tables[..i + 1], range, data, params).log
    ensures ParamsRun(store, tables[i], range, data, params).failure.Some? ==>
              TablesRun(store, tables, range, data, params) == TablesRun(store, tables[..i + 1], range, data, params)
  {
    assert tables[..i + 1][..i] == tables[..i];
    AppendAssoc(base, TablesRun(store, tables[..i], range, data, params).log, ParamsRun(store, tables[i], range, data, params).log);
    if ParamsRun(store, tables[i], range, data, params).failure.Some? {
      TablesFailureSticks(store, tables, range, data, params, i + 1);
    }
  }

  /** Once a table fails, later tables change nothing. */
  lemma {:induction false} TablesFailureSticks(store: Store, tables: seq<string>, range: DateRange, data: Frame, params: seq<string>, i: nat)
    requires WellFormed(data) && i <= |tables|
    requires TablesRun(store, tables[..i], range, data, params).failure.Some?
    ensures TablesRun(store, tables, range, data, params) == TablesRun(store, tables[..i], range, data, params)
    decreases |tables|
  {
    if i < |tables| {
      var init := tables[..|tables| - 1];
      assert init[..i] == tables[..i];
      TablesFailureSticks(store, init, range, data, params, i);
    } else {
      assert tables[..i] == tables;
    }
  }

  /** Every update of the inner loop writes into its table. */
  lemma {:induction false} ParamsRunWrites(store: Store, table: string, range: DateRange, data: Frame, params: seq<string>)
    requires WellFormed(data)
    ensures forall e :: e in ParamsRun(store, table, range, data, params).log ==> WritesWithin(e, [table], store, range)
    decreases |params|
  {
    if params != [] {
      var init := params[..|params| - 1];
      ParamsRunWrites(store, table, range, data, init);
      var u := Unit(store, table, range, data, params[|params| - 1]);
      if ParamsRun(store, table, range, data, init).failure.None? && u.Ok? {
        UnitWrites(store, table, range, data, params[|params| - 1]);
      }
    }
  }

  /** Every update of the outer loop writes into one of the listed tables. */
  lemma {:induction false} TablesRunWrites(store: Store, tables: seq<string>, range: DateRange, data: Frame, params: seq<string>)
    requires WellFormed(data)
    ensures forall e :: e in TablesRun(store, tables, range, data, params).log ==> WritesWithin(e, tables, store, range)
    decreases |tables|
  {
    if tables != [] {
      var init := tables[..|tables| - 1];
      var table := tables[|tables| - 1];
      TablesRunWrites(store, init, range, data, params);
      ParamsRunWrites(store, table, range, data, params);
      assert forall t :: t in init ==> t in tables;
    }
  }

  /** `[parameter_mapping[p] for p in parameters]`, which fails on the first
      parameter without a mapping. */
  function MapParameters(params: seq<string>): (r: Result<seq<string>>)
    ensures r.Ok? <==> forall p :: p in params ==> p in ParameterMapping
    ensures r.Ok? ==> |r.value| == |params| && forall i :: 0 <= i < |params| ==> r.value[i] == ParameterMapping[params[i]]
    ensures r.Err? ==> exists p :: p in params && p !in ParameterMapping && r.error == KeyError(p)
  {
    if params == [] then Ok([])
    else if params[0] !in ParameterMapping then Err(KeyError(params[0]))
    else match MapParameters(params[1..])
      case Err(e) => Err(e)
      case Ok(rest) => Ok([ParameterMapping[params[0]]] + rest)
  }

  /** What update_table returns and which updates it leaves executed. */
  datatype Outcome = Outcome(result: Result<Metadata>, log: seq<Execution>)

  /** The tables update_table works on for a date range. */
  function TablesFor(store: Store, station: string, range: DateRange): seq<string> {
    Sweep(TableNames(station, store.datasetinfo(station, range)), 0, store.tableExists)
  }

  /** Specification of update_table. */
  function Reconciliation(store: Store, data: Frame, station: string, params: seq<string>): Outcome
    requires WellFormed(data)
  {
    match DateRangeOf(data.times)
    case Err(e) => Outcome(Err(e), [])
    case Ok(range) =>
      var tables := TablesFor(store, station, range);
      var run := TablesRun(store, tables, range, data, params);
      if run.failure.Some? then Outcome(Err(run.failure.value), run.log)
      else match MapParameters(params)
        case Err(e) => Outcome(Err(e), run.log)
        case Ok(columns) => Outcome(Ok(Metadata(station, columns, range, tables)), run.log)
  }

  /** The metadata: the station as given, the mapped parameter names in
      caller order, the date range of the data, and the filtered tables,
      each of them named after a deployment of the station in that range. */
  lemma ReconciliationMetadata(store: Store, data: Frame, station: string, params: seq<string>)
    requires WellFormed(data)
    ensures var out := Reconciliation(store, data, station, params);
            out.result.Ok? ==>
              var m := out.result.value;
              && |data.times| > 0
              && m.station == station
              && m.dateRange == DateRange(data.times[0], data.times[|data.times| - 1] + RangePadding)
              && |m.parameters| == |params|
              && (forall i :: 0 <= i < |params| ==> params[i] in ParameterMapping && m.parameters[i] == ParameterMapping[params[i]])
              && IsSubseq(m.tables, TableNames(station, store.datasetinfo(station, m.dateRange)))
              && forall t :: t in m.tables ==>
                   exists d :: d in store.datasetinfo(station, m.dateRange) && t == EngineeringTableName(station, d.systemNum, d.startDate)
  {
    if |data.times| > 0 {
      var range := DateRangeOf(data.times).value;
      SweepSubseq(TableNames(station, store.datasetinfo(station, range)), 0, store.tableExists);
      SweptNamesComeFromDeployments(station, store.datasetinfo(station, range), store.tableExists);
    }
  }

  /** Empty data fails before anything is executed; otherwise every update
      executed writes `sst` or `sal` into one of the metadata's tables, at
      one of that table's header times in the date range, a positive value. */
  lemma ReconciliationWrites(store: Store, data: Frame, station: string, params: seq<string>)
    requires WellFormed(data)
    ensures |data.times| == 0 ==> Reconciliation(store, data, station, params) == Outcome(Err(EmptyData), [])
    ensures |data.times| > 0 ==>
              var range := DateRangeOf(data.times).value;
              forall e :: e in Reconciliation(store, data, station, params).log ==>
                WritesWithin(e, TablesFor(store, station, range), store, range)
  {
    if |data.times| > 0 {
      var range := DateRangeOf(data.times).value;
      TablesRunWrites(store, TablesFor(store, station, range), range, data, params);
    }
  }

  // ---------------------------------------------------------------------
  // The reconciliation driver

  /** The cursor and the answers of the database behind it. */
  class DatabaseUploader {
    const store: Store
    /** Stored, but nothing reads it. */
    const testing: bool
    const cur: Cursor

    constructor (store: Store, testing: bool)
      ensures this.store == store && this.testing == testing
      ensures fresh(cur) && cur.executed == []
    {
      this.store := store;
      this.testing := testing;
      cur := new Cursor();
    }

    /** _test_for_eng_table_existence: removes, while iterating, each table
        the existence query denies. */
    method TestForEngTableExistence(tables: seq<string>) returns (kept: seq<string>)
      ensures kept == Sweep(tables, 0, store.tableExists)
    {
      kept := tables;
      var i := 0;
      while i < |kept|
        invariant Sweep(kept, i, store.tableExists) == Sweep(tables, 0, store.tableExists)
        decreases |kept| - i
      {
        if !store.tableExists(kept[i]) {
          kept := RemoveFirst(kept, kept[i]);
        }
        i := i + 1;
      }
    }

    /** _get_engineering_table_names: one name per deployment, then the
        existence filter. */
    method GetEngineeringTableNames(station: string, range: DateRange) returns (tables: seq<string>)
      ensures tables == Sweep(TableNames(station, store.datasetinfo(station, range)), 0, store.tableExists)
    {
      var queryResults := store.datasetinfo(station, range);
      var built: seq<string> := [];
      for i := 0 to |queryResults|
        invariant built == TableNames(station, queryResults[..i])
      {
        built := built + [EngineeringTableName(station, queryResults[i].systemNum, queryResults[i].startDate)];
      }
      assert queryResults[..|queryResults|] == queryResults;
      tables := TestForEngTableExistence(built);
    }

    /** _get_hdrtimes_and_aligned_times: the table's header times, and for
        each, shifted by the offset, the nearest sample time within the
        tolerance. */
    method GetHdrtimesAndAlignedTimes(table: string, range: DateRange, sub: seq<Sample>)
      returns (hdrtimes: seq<int>, aligned: Result<seq<Option<int>>>)
      ensures hdrtimes == store.hdrtimes(table, range)
      ensures aligned == Aligned(Times(sub), Shift(hdrtimes), Some(Tolerance))
    {
      hdrtimes := store.hdrtimes(table, range);
      var adjusted := Shift(hdrtimes);
      aligned := AlignArrays(Times(sub), adjusted, Some(Tolerance));
    }

    /** The body of update_table's inner loop: one table, one parameter. */
    method UpdateUnit(table: string, range: DateRange, data: Frame, p: string) returns (failure: Option<Error>)
      requires WellFormed(data)
      modifies cur
      ensures var u := Unit(store, table, range, data, p);
              && (u.Err? ==> failure == Some(u.error) && cur.executed == old(cur.executed))
              && (u.Ok? ==> failure == None && cur.executed == old(cur.executed) + u.value)
    {
      if p !in data.columns {
        return Some(KeyError(p));
      }
      var sub := PositiveRows(data.times, data.columns[p]);
      var hdrtimes, aligned := GetHdrtimesAndAlignedTimes(table, range, sub);
      if aligned.Err? {
        return Some(aligned.error);
      }
      var keys := MatchedKeys(hdrtimes, aligned.value);
      var values := MatchedValues(sub, aligned.value);
      if values.Err? {
        return Some(values.error);
      }
      if p !in ParameterMapping {
        return Some(KeyError(p));
      }
      var updateSql := GenerateUpdateSql(table, ParameterMapping[p]);
      if updateSql.Err? {
        return Some(updateSql.error);
      }
      RunUpdateSql(cur, updateSql.value, keys, values.value);
      return None;
    }

    /** update_table's inner loop: the parameters of one table, in order,
        until one fails. */
    method UpdateParameters(table: string, range: DateRange, data: Frame, parameters: seq<string>)
      returns (failure: Option<Error>)
      requires WellFormed(data)
      modifies cur
      ensures failure == ParamsRun(store, table, range, data, parameters).failure
      ensures cur.executed == old(cur.executed) + ParamsRun(store, table, range, data, parameters).log
    {
      for j := 0 to |parameters|
        invariant cur.executed == old(cur.executed) + ParamsRun(store, table, range, data, parameters[..j]).log
        invariant ParamsRun(store, table, range, data, parameters[..j]).failure.None?
      {
        ghost var before := cur.executed;
        failure := UpdateUnit(table, range, data, parameters[j]);
        if failure.Some? {
          ParamsStop(store, table, range, data, parameters, j);
          return;
        }
        ParamsStepLog(store, table, range, data, parameters, j, old(cur.executed), before, cur.executed);
      }
      assert parameters[..|parameters|] == parameters;
      return None;
    }

    /** update_table: the date range, the filtered tables, then every table
        with every parameter; the metadata once all updates are issued. */
    method UpdateTable(data: Frame, station: string, parameters: seq<string>) returns (r: Result<Metadata>)
      requires WellFormed(data)
      modifies cur
      ensures r == Reconciliation(store, data, station, parameters).result
      ensures cur.executed == old(cur.executed) + Reconciliation(store, data, station, parameters).log
    {
      var dateRange := DateRangeOf(data.times);
      if dateRange.Err? {
        return Err(dateRange.error);
      }
      var range := dateRange.value;
      var tables := GetEngineeringTableNames(station, range);
      assert tables == TablesFor(store, station, range);
      for i := 0 to |tables|
        invariant cur.executed == old(cur.executed) + TablesRun(store, tables[..i], range, data, parameters).log
        invariant TablesRun(store, tables[..i], range, data, parameters).failure.None?
      {
        ghost var before := cur.executed;
        var failure := UpdateParameters(tables[i], range, data, parameters);
        TablesStepLog(store, tables, range, data, parameters, i, old(cur.executed), before, cur.executed);
        if failure.Some? {
          return Err(failure.value);
        }
      }
      assert tables[..|tables|] == tables;
      var columns := MapParameters(parameters);
      if columns.Err? {
        return Err(columns.error);
      }
      return Ok(Metadata(station, columns.value, range, tables));
    }
  }
}
