/** Table names, update statements and the update loop (generate_sql_query.py).
    Statements are modelled by their shape (table, columns, what each
    placeholder binds); the SQL text of date clauses is not modelled. */
module SqlQuery {
  import opened Outcomes
  import opened Strings

  // ---------------------------------------------------------------------
  // str(int) and the zero padding of system numbers

  function DigitChar(d: nat): char
    requires d < 10
  {
    "0123456789"[d]
  }

  /** Decimal digits of a natural number, most significant first. */
  function DecimalDigits(n: nat): string
    decreases n
  {
    if n < 10 then [DigitChar(n)] else DecimalDigits(n / 10) + [DigitChar(n % 10)]
  }

  /** Python's `str` of an integer. */
  function IntToString(n: int): string {
    if n < 0 then "-" + DecimalDigits(-n) else DecimalDigits(n)
  }

  function DigitValue(c: char): nat {
    if '0' <= c <= '9' then c as int - '0' as int else 0
  }

  /** The number a string of decimal digits denotes. */
  function DigitsValue(s: string): nat {
    if s == [] then 0 else DigitsValue(s[..|s| - 1]) * 10 + DigitValue(s[|s| - 1])
  }

  /** Python's `'0' * k`, which is empty when `k` is zero or negative. */
  function Zeros(k: int): string
    decreases k
  {
    if k <= 0 then "" else "0" + Zeros(k - 1)
  }

  lemma {:induction false} ZerosShape(k: int)
    ensures |Zeros(k)| == if k < 0 then 0 else k
    ensures forall i :: 0 <= i < |Zeros(k)| ==> Zeros(k)[i] == '0'
    decreases k
  {
    if k > 0 {
      ZerosShape(k - 1);
    }
  }

  /** The zero-padded system number: left-padded with '0' to four
      characters, and left as it is when it is already longer. */
  function PadSystemNumber(systemNum: int): (r: string)
    ensures var digits := IntToString(systemNum);
            && |r| == (if |digits| < 4 then 4 else |digits|)
            && r[|r| - |digits|..] == digits
            && forall i :: 0 <= i < |r| - |digits| ==> r[i] == '0'
  {
    ZerosShape(4 - |IntToString(systemNum)|);
    Zeros(4 - |IntToString(systemNum)|) + IntToString(systemNum)
  }

  lemma {:induction false} DecimalRoundTrip(n: nat)
    ensures DigitsValue(DecimalDigits(n)) == n
    decreases n
  {
    if n >= 10 {
      DecimalRoundTrip(n / 10);
      var d := DecimalDigits(n / 10) + [DigitChar(n % 10)];
      assert d[..|d| - 1] == DecimalDigits(n / 10);
    }
  }

  function Pow10(k: nat): nat {
    if k == 0 then 1 else 10 * Pow10(k - 1)
  }

  lemma {:induction false} DecimalLength(n: nat, k: nat)
    requires 1 <= k && n < Pow10(k)
    ensures 1 <= |DecimalDigits(n)| <= k
    decreases n
  {
    if n >= 10 {
      assert n / 10 < Pow10(k - 1);
      DecimalLength(n / 10, k - 1);
    }
  }

  /** Leading zeros do not change the number a digit string denotes. */
  lemma {:induction false} LeadingZeros(k: int, s: string)
    ensures DigitsValue(Zeros(k) + s) == DigitsValue(s)
    decreases |s|, k
  {
    if s == [] {
      if k > 0 {
        assert Zeros(k) + s == Zeros(k);
        var z := Zeros(k);
        assert z == "0" + Zeros(k - 1);
        ZerosShape(k);
        assert z[..|z| - 1] == Zeros(k - 1) + [] by {
          ZerosShape(k - 1);
          assert forall i :: 0 <= i < |z| - 1 ==> z[i] == '0';
        }
        LeadingZeros(k - 1, []);
      }
    } else {
      var t := Zeros(k) + s;
      assert t[..|t| - 1] == Zeros(k) + s[..|s| - 1];
      LeadingZeros(k, s[..|s| - 1]);
    }
  }

  /** For a system number in 0..9999 the padded form has exactly four
      characters and still denotes the number. */
  lemma PaddedValue(systemNum: int)
    requires 0 <= systemNum < 10000
    ensures |PadSystemNumber(systemNum)| == 4
    ensures DigitsValue(PadSystemNumber(systemNum)) == systemNum
  {
    assert Pow10(4) == 10000;
    DecimalLength(systemNum, 4);
    DecimalRoundTrip(systemNum);
    LeadingZeros(4 - |IntToString(systemNum)|, IntToString(systemNum));
  }

  // ---------------------------------------------------------------------
  // generate_engineering_table_name

  function EngineeringTableName(station: string, systemNum: int, startDate: string): string {
    "eng_" + PadSystemNumber(systemNum) + "_" + Lower(station) + "_" + startDate
  }

  /** In `a + "_" + b` with no `_` in `a`, the first `_` is at `|a|`. */
  lemma FirstSeparator(a: string, b: string)
    requires '_' !in a
    ensures (a + "_" + b)[|a|] == '_'
    ensures forall i :: 0 <= i < |a| ==> (a + "_" + b)[i] != '_'
  {
    assert forall i :: 0 <= i < |a| ==> (a + "_" + b)[i] == a[i];
  }

  /** Two strings without `_`, each followed by `_`, split the same way. */
  lemma SplitAtSeparator(a: string, b: string, c: string, d: string)
    requires '_' !in a && '_' !in c
    requires a + "_" + b == c + "_" + d
    ensures a == c && b == d
  {
    var x := a + "_" + b;
    FirstSeparator(a, b);
    FirstSeparator(c, d);
    assert |a| == |c|;
    assert a == x[..|a|] && c == x[..|c|];
    assert b == x[|a| + 1..] && d == x[|c| + 1..];
  }

  /** For station names without `_`, the table name determines the system
      number, the lower-cased station and the start date. */
  lemma TableNameInjective(st1: string, n1: int, d1: string, st2: string, n2: int, d2: string)
    requires '_' !in st1 && '_' !in st2
    requires EngineeringTableName(st1, n1, d1) == EngineeringTableName(st2, n2, d2)
    ensures n1 == n2 && Lower(st1) == Lower(st2) && d1 == d2
  {
    var p1, p2 := PadSystemNumber(n1), PadSystemNumber(n2);
    var r1, r2 := Lower(st1) + "_" + d1, Lower(st2) + "_" + d2;
    NameParts(st1, n1, d1);
    NameParts(st2, n2, d2);
    StripEng(p1, r1, p2, r2);
    PadHasNoSeparator(n1);
    PadHasNoSeparator(n2);
    SplitAtSeparator(p1, r1, p2, r2);
    PadInjective(n1, n2);
    LowerKeepsNonLetters(st1, '_');
    LowerKeepsNonLetters(st2, '_');
    SplitAtSeparator(Lower(st1), d1, Lower(st2), d2);
  }

  /** Without the condition on stations, names do collide: a `_` in the
      station can be read as the start of the date. */
  lemma StationSeparatorCollision()
    ensures EngineeringTableName("a_b", 1, "c") == EngineeringTableName("a", 1, "b_c")
  {
    assert Lower("a_b") == "a_b";
    assert Lower("a") == "a";
  }

  /** The table names of one station determine the system number and the
      start date, whatever the station name and the numbers are. */
  lemma SameStationInjective(station: string, n1: int, d1: string, n2: int, d2: string)
    requires EngineeringTableName(station, n1, d1) == EngineeringTableName(station, n2, d2)
    ensures n1 == n2 && d1 == d2
  {
    var p1, p2 := PadSystemNumber(n1), PadSystemNumber(n2);
    var l := Lower(station) + "_";
    NameParts(station, n1, d1);
    NameParts(station, n2, d2);
    assert l + d1 == Lower(station) + "_" + d1 && l + d2 == Lower(station) + "_" + d2;
    StripEng(p1, l + d1, p2, l + d2);
    PadHasNoSeparator(n1);
    PadHasNoSeparator(n2);
    SplitAtSeparator(p1, l + d1, p2, l + d2);
    PadInjective(n1, n2);
    assert d1 == (l + d1)[|l|..] && d2 == (l + d2)[|l|..];
  }

  /** The name as the padded number, then the rest after its separator. */
  lemma NameParts(station: string, systemNum: int, startDate: string)
    ensures EngineeringTableName(station, systemNum, startDate)
            == "eng_" + PadSystemNumber(systemNum) + "_" + (Lower(station) + "_" + startDate)
  {
  }

  /** Dropping the common `eng_` prefix and regrouping the rest. */
  lemma StripEng(p1: string, r1: string, p2: string, r2: string)
    requires "eng_" + p1 + "_" + r1 == "eng_" + p2 + "_" + r2
    ensures p1 + "_" + r1 == p2 + "_" + r2
  {
    var x, y := "eng_" + p1 + "_" + r1, "eng_" + p2 + "_" + r2;
    assert x[4..] == p1 + "_" + r1;
    assert y[4..] == p2 + "_" + r2;
  }

  /** `str(n)` is made of digits and at most a leading minus sign; it starts
      with `0` only for zero, which is the one-character "0". */
  lemma {:induction false} DecimalShape(n: nat)
    ensures |DecimalDigits(n)| >= 1
    ensures forall c :: c in DecimalDigits(n) ==> '0' <= c <= '9'
    ensures DecimalDigits(n)[0] == '0' <==> n == 0
    ensures n == 0 ==> DecimalDigits(n) == "0"
    decreases n
  {
    if n >= 10 {
      DecimalShape(n / 10);
      var d := DecimalDigits(n / 10) + [DigitChar(n % 10)];
      assert d[0] == DecimalDigits(n / 10)[0];
      forall c | c in d ensures '0' <= c <= '9' {
        if c !in DecimalDigits(n / 10) {
          assert c == DigitChar(n % 10);
        }
      }
    }
  }

  lemma IntToStringShape(n: int)
    ensures |IntToString(n)| >= 1
    ensures '_' !in IntToString(n)
    ensures IntToString(n)[0] == '0' <==> n == 0
    ensures n == 0 ==> |IntToString(n)| == 1
  {
    if n < 0 {
      DecimalShape(-n);
      var s := "-" + DecimalDigits(-n);
      forall i | 0 <= i < |s| ensures s[i] != '_' {
        if i > 0 {
          assert s[i] == DecimalDigits(-n)[i - 1];
          assert DecimalDigits(-n)[i - 1] in DecimalDigits(-n);
        }
      }
    } else {
      DecimalShape(n);
    }
  }

  /** `str` is injective on integers. */
  lemma IntToStringInjective(a: int, b: int)
    requires IntToString(a) == IntToString(b)
    ensures a == b
  {
    if a < 0 {
      SignedHasMinus(a);
      NaturalHasNoMinus(b);
      NegativeInjective(a, b);
    } else {
      NaturalHasNoMinus(a);
      SignedHasMinus(b);
      DecimalRoundTrip(a);
      DecimalRoundTrip(b);
    }
  }

  lemma SignedHasMinus(n: int)
    ensures IntToString(n)[0] == '-' <==> n < 0
  {
    if n >= 0 {
      NaturalHasNoMinus(n);
    }
  }

  lemma NaturalHasNoMinus(n: int)
    ensures n >= 0 ==> IntToString(n)[0] != '-'
  {
    if n >= 0 {
      DecimalShape(n);
      assert DecimalDigits(n)[0] in DecimalDigits(n);
    }
  }

  lemma NegativeInjective(a: int, b: int)
    requires a < 0 && b < 0 && IntToString(a) == IntToString(b)
    ensures a == b
  {
    var x, y := -a, -b;
    DropSign(DecimalDigits(x));
    DropSign(DecimalDigits(y));
    assert DecimalDigits(x) == DecimalDigits(y);
    DecimalRoundTrip(x);
    DecimalRoundTrip(y);
  }

  lemma DropSign(t: string)
    ensures ("-" + t)[1..] == t
  {
  }

  /** The padded number has no `_`, so the name's separators stay where the
      builder put them. */
  lemma PadHasNoSeparator(systemNum: int)
    ensures '_' !in PadSystemNumber(systemNum)
  {
    var r := PadSystemNumber(systemNum);
    var digits := IntToString(systemNum);
    IntToStringShape(systemNum);
    forall i | 0 <= i < |r| ensures r[i] != '_' {
      if i >= |r| - |digits| {
        assert r[i] == digits[i - (|r| - |digits|)];
      }
    }
  }

  /** Padding is injective: the zeros in front can be told apart from the
      number, because `str(n)` starts with `0` only for zero. */
  lemma PadInjective(n1: int, n2: int)
    requires PadSystemNumber(n1) == PadSystemNumber(n2)
    ensures n1 == n2
  {
    var p := PadSystemNumber(n1);
    var s1, s2 := IntToString(n1), IntToString(n2);
    IntToStringShape(n1);
    IntToStringShape(n2);
    assert p[|p| - |s1|] == s1[0];
    assert p[|p| - |s2|] == s2[0];
    assert |s1| == |s2|;
    assert s1 == p[|p| - |s1|..] == s2;
    IntToStringInjective(n1, n2);
  }

  // ---------------------------------------------------------------------
  // generate_update_sql, generate_param_reset_sql

  /** What a statement writes: a placeholder bound at execution, or a literal. */
  datatype Operand = Placeholder | Literal(n: int)

  datatype Condition =
    | HdrtimeIs(key: Operand)               // WHERE hdrtime = <key>
    | HdrtimeBetween(start: int, end: int)  // WHERE hdrtime BETWEEN <start> and <end>

  /** `UPDATE table SET column = value, flagColumn = flag WHERE condition;` */
  datatype Statement = Update(table: string, column: string, value: Operand,
                              flagColumn: string, flag: Operand, where: Condition)

  /** Flag written with a successfully updated value. */
  const GoodFlag := 0
  /** Value and flag written by a reset. */
  const MissingValue := -99
  const ResetFlag := 11

  /** The two columns the statements may write. */
  predicate IsParameterColumn(column: string) {
    column == "sst" || column == "sal"
  }

  /** generate_update_sql: fails its assertion unless the column is `sst` or
      `sal`; otherwise the value is bound at execution, the column's flag is
      set to 0, and the row is chosen by a bound header time. */
  function GenerateUpdateSql(table: string, column: string): (r: Result<Statement>)
    ensures r.Ok? <==> IsParameterColumn(column)
    ensures r.Ok? ==> r.value.table == table && r.value.column == column
    ensures r.Ok? ==> r.value.value == Placeholder && r.value.where == HdrtimeIs(Placeholder)
    ensures r.Ok? ==> r.value.flagColumn == column + "flag" && r.value.flag == Literal(GoodFlag)
  {
    if !IsParameterColumn(column) then Err(AssertionError("column_name == 'sst' or column_name == 'sal'"))
    else Ok(Update(table, column, Placeholder, column + "flag", Literal(GoodFlag), HdrtimeIs(Placeholder)))
  }

  /** generate_param_reset_sql: the same assertion; the column is set to -99
      and its flag to 11 for every header time in the range. */
  function GenerateParamResetSql(table: string, column: string, start: int, end: int): (r: Result<Statement>)
    ensures r.Ok? <==> IsParameterColumn(column)
    ensures r.Ok? ==> r.value.table == table && r.value.column == column
    ensures r.Ok? ==> r.value.value == Literal(MissingValue) && r.value.where == HdrtimeBetween(start, end)
    ensures r.Ok? ==> r.value.flagColumn == column + "flag" && r.value.flag == Literal(ResetFlag)
  {
    if !IsParameterColumn(column) then Err(AssertionError("column_name == 'sst' or column_name == 'sal'"))
    else Ok(Update(table, column, Literal(MissingValue), column + "flag", Literal(ResetFlag), HdrtimeBetween(start, end)))
  }

  // ---------------------------------------------------------------------
  // run_update_sql

  /** One `cursor.execute(statement, (value, key))`: the value binds the SET
      placeholder and the header time binds the WHERE placeholder. */
  datatype Execution = Execution(statement: Statement, value: real, key: int)

  /** The database cursor, seen through the statements executed on it. */
  class Cursor {
    var executed: seq<Execution>

    constructor ()
      ensures executed == []
    {
      executed := [];
    }

    method Execute(statement: Statement, value: real, key: int)
      modifies this
      ensures executed == old(executed) + [Execution(statement, value, key)]
    {
      executed := executed + [Execution(statement, value, key)];
    }
  }

  /** Python's `zip(dtimes, values)` turned into executions: it stops at the
      end of the shorter list. */
  function Zip(statement: Statement, dtimes: seq<int>, values: seq<real>): seq<Execution> {
    if dtimes == [] || values == [] then []
    else [Execution(statement, values[0], dtimes[0])] + Zip(statement, dtimes[1..], values[1..])
  }

  /** One execution per pair, as many as the shorter list, in input order,
      with the value before the header time. */
  lemma {:induction false} ZipAt(statement: Statement, dtimes: seq<int>, values: seq<real>)
    ensures |Zip(statement, dtimes, values)| == if |dtimes| < |values| then |dtimes| else |values|
    ensures forall k :: 0 <= k < |Zip(statement, dtimes, values)| ==>
              Zip(statement, dtimes, values)[k] == Execution(statement, values[k], dtimes[k])
  {
    if dtimes != [] && values != [] {
      ZipAt(statement, dtimes[1..], values[1..]);
    }
  }

  /** run_update_sql: one execute per zipped pair, in order. */
  method RunUpdateSql(cursor: Cursor, statement: Statement, dtimes: seq<int>, values: seq<real>)
    modifies cursor
    ensures cursor.executed == old(cursor.executed) + Zip(statement, dtimes, values)
  {
    var n := if |dtimes| < |values| then |dtimes| else |values|;
    for i := 0 to n
      invariant |cursor.executed| == |old(cursor.executed)| + i
      invariant cursor.executed[..|old(cursor.executed)|] == old(cursor.executed)
      invariant forall k :: 0 <= k < i ==>
                  cursor.executed[|old(cursor.executed)| + k] == Execution(statement, values[k], dtimes[k])
    {
      cursor.Execute(statement, values[i], dtimes[i]);
    }
    ZipAt(statement, dtimes, values);
    assert cursor.executed == old(cursor.executed) + Zip(statement, dtimes, values);
  }
}
