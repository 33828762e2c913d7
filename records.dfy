/** Records of the air-traffic table and the row parser `parseCSVData`. */
module Records {
  import opened Wrappers
  import opened NumberText

  /** The fourteen columns of the table, in the order the object literal of
      `parseCSVData` reads them. */
  datatype Column =
    | Year | Month
    | DomAsm | IntAsm | Asm
    | DomRpm | IntRpm | Rpm
    | DomLf | IntLf | Lf
    | DomPax | IntPax | Pax
  {
    /** Read with the thousands separators removed (`.replace(/,/g, '')`). */
    predicate Stripped() {
      !(Year? || Month? || DomLf? || IntLf? || Lf?)
    }

    /** A load-factor column: coerced as it stands, and a decimal. */
    predicate Rate() {
      DomLf? || IntLf? || Lf?
    }
  }

  const Columns: seq<Column> :=
    [Year, Month, DomAsm, IntAsm, Asm, DomRpm, IntRpm, Rpm, DomLf, IntLf, Lf, DomPax, IntPax, Pax]

  /** One CSV row as `d3.csv` delivers it: the text under each header (a header that is
      absent from the file is absent from the map). */
  type RawRow = map<Column, string>

  /** One month of traffic. ASM (available seat-miles), RPM (revenue passenger-miles) and
      Pax (passengers) are counts; LF (load factor) is a percentage. `dom`/`int` prefixes
      are the domestic and international parts. */
  datatype TrafficRecord = TrafficRecord(
    year: nat, month: nat,
    domAsm: nat, intAsm: nat, asm: nat,
    domRpm: nat, intRpm: nat, rpm: nat,
    domLf: real, intLf: real, lf: real,
    domPax: nat, intPax: nat, pax: nat)

  /** Why one field could not be read: a column whose text is stripped of commas throws
      when it is absent (`undefined.replace`); every other failure is a NaN. */
  datatype FieldError = MissingField(column: Column) | NotANumber(column: Column)

  /** The first failing row of a batch and the reason. */
  datatype ParseError = ParseError(row: nat, cause: FieldError)

  /** What column `c` of `row` coerces to: an integer (Year, Month, counts), a decimal
      (LF columns), or a failure. A stripped column that is absent throws
      (`undefined.replace`); any other absent column coerces `undefined`, which is NaN. */
  datatype Reading = Integer(n: nat) | Decimal(x: real) | Unreadable(error: FieldError)

  function Read(row: RawRow, c: Column): (r: Reading)
    ensures r.Decimal? <==> c.Rate() && !r.Unreadable?
    ensures r.Unreadable? ==> r.error.column == c
  {
    if c.Stripped() then
      if c !in row then Unreadable(MissingField(c))
      else if ToCount(row[c]).Some? then Integer(ToCount(row[c]).value)
      else Unreadable(NotANumber(c))
    else if c.Rate() then
      if c in row && ToDecimal(row[c]).Some? then Decimal(ToDecimal(row[c]).value)
      else Unreadable(NotANumber(c))
    else
      if c in row && ToInteger(row[c]).Some? then Integer(ToInteger(row[c]).value)
      else Unreadable(NotANumber(c))
  }

  /** Every one of the fourteen columns can be read. */
  predicate WellFormed(row: RawRow) {
    forall c: Column :: !Read(row, c).Unreadable?
  }

  /** The first unreadable column among `cols`, in order. */
  function FirstError(row: RawRow, cols: seq<Column>): (r: Option<FieldError>)
    ensures r.None? <==> forall i :: 0 <= i < |cols| ==> !Read(row, cols[i]).Unreadable?
    ensures r.Some? ==> exists i :: 0 <= i < |cols| && Read(row, cols[i]) == Unreadable(r.value) &&
                                    forall j :: 0 <= j < i ==> !Read(row, cols[j]).Unreadable?
  {
    if cols == [] then None
    else if Read(row, cols[0]).Unreadable? then Some(Read(row, cols[0]).error)
    else
      var r := FirstError(row, cols[1..]);
      assert r.Some? ==> exists i :: 0 <= i < |cols| && Read(row, cols[i]) == Unreadable(r.value) &&
                                     forall j :: 0 <= j < i ==> !Read(row, cols[j]).Unreadable? by {
        if r.Some? {
          var i :| 0 <= i < |cols[1..]| && Read(row, cols[1..][i]) == Unreadable(r.value) &&
                   forall j :: 0 <= j < i ==> !Read(row, cols[1..][j]).Unreadable?;
          assert Read(row, cols[i + 1]) == Unreadable(r.value);
        }
      }
      r
  }

  lemma ColumnListed(c: Column)
    ensures c in Columns
  {
  }

  /** The columns listed for reading are all fourteen. */
  lemma FirstErrorCoversRow(row: RawRow)
    ensures FirstError(row, Columns).None? <==> WellFormed(row)
  {
    if FirstError(row, Columns).None? {
      forall c: Column ensures !Read(row, c).Unreadable? {
        ColumnListed(c);
        var i :| 0 <= i < |Columns| && Columns[i] == c;
      }
    }
  }

  /** The integer column `c` of a well-formed row. */
  function IntegerAt(row: RawRow, c: Column): nat
    requires WellFormed(row) && !c.Rate()
  {
    Read(row, c).n
  }

  /** The decimal column `c` of a well-formed row. */
  function DecimalAt(row: RawRow, c: Column): real
    requires WellFormed(row) && c.Rate()
  {
    Read(row, c).x
  }

  /** The record a well-formed row denotes. */
  function Build(row: RawRow): TrafficRecord
    requires WellFormed(row)
  {
    TrafficRecord(
      IntegerAt(row, Year), IntegerAt(row, Month),
      IntegerAt(row, DomAsm), IntegerAt(row, IntAsm), IntegerAt(row, Asm),
      IntegerAt(row, DomRpm), IntegerAt(row, IntRpm), IntegerAt(row, Rpm),
      DecimalAt(row, DomLf), DecimalAt(row, IntLf), DecimalAt(row, Lf),
      IntegerAt(row, DomPax), IntegerAt(row, IntPax), IntegerAt(row, Pax))
  }

  /** One row of the `data.map` in `parseCSVData`. It succeeds exactly on well-formed rows
      and otherwise reports the first column, in reading order, that cannot be read. */
  function ParseRow(row: RawRow): (r: Result<TrafficRecord, FieldError>)
    ensures r.Success? <==> WellFormed(row)
    ensures r.Failure? ==> Read(row, r.error.column) == Unreadable(r.error)
    ensures r.Failure? ==> FirstError(row, Columns) == Some(r.error)
  {
    if WellFormed(row) then Success(Build(row))
    else
      FirstErrorCoversRow(row);
      var e :| FirstError(row, Columns) == Some(e);
      Failure(e)
  }

  /** `parseCSVData`: every row parsed, in order, into a record; the batch fails at the
      first row that does not parse. */
  function ParseCSVData(rows: seq<RawRow>): (r: Result<seq<TrafficRecord>, ParseError>)
    ensures r.Success? <==> forall i :: 0 <= i < |rows| ==> ParseRow(rows[i]).Success?
    ensures r.Success? ==>
      |r.value| == |rows| && forall i :: 0 <= i < |rows| ==> ParseRow(rows[i]) == Success(r.value[i])
    ensures r.Failure? ==>
      r.error.row < |rows| && ParseRow(rows[r.error.row]) == Failure(r.error.cause) &&
      forall i :: 0 <= i < r.error.row ==> ParseRow(rows[i]).Success?
  {
    match MapUntilFailure(ParseRow, rows)
    case Success(records) => Success(records)
    case Failure((i, e)) => Failure(ParseError(i, e))
  }

  /** The integer a record holds for column `c` (Year, Month or a count). */
  function IntegerValue(r: TrafficRecord, c: Column): nat
    requires !c.Rate()
  {
    match c
    case Year => r.year
    case Month => r.month
    case DomAsm => r.domAsm
    case IntAsm => r.intAsm
    case Asm => r.asm
    case DomRpm => r.domRpm
    case IntRpm => r.intRpm
    case Rpm => r.rpm
    case DomPax => r.domPax
    case IntPax => r.intPax
    case _ => r.pax
  }

  /** A stripped column of a parsed row holds the number its text spells once every comma
      is removed ("86,925,851" holds 86925851). */
  lemma StrippedColumnValue(row: RawRow, c: Column)
    requires ParseRow(row).Success? && c.Stripped()
    ensures c in row && AllDigits(StripCommas(row[c]))
    ensures IntegerValue(ParseRow(row).value, c) == DigitsValue(StripCommas(row[c]))
  {
    assert !Read(row, c).Unreadable?;
  }

  /** The decimal a record holds for load-factor column `c`. */
  function DecimalValue(r: TrafficRecord, c: Column): real
    requires c.Rate()
  {
    match c
    case DomLf => r.domLf
    case IntLf => r.intLf
    case _ => r.lf
  }

  /** Year, Month and the three LF columns are read as they stand: Year and Month hold the
      number their digits spell, an LF column the decimal its text spells. */
  lemma UnstrippedColumnValue(row: RawRow, c: Column)
    requires ParseRow(row).Success? && !c.Stripped()
    ensures c in row
    ensures !c.Rate() ==> AllDigits(row[c]) && IntegerValue(ParseRow(row).value, c) == DigitsValue(row[c])
    ensures c.Rate() ==> ToDecimal(row[c]).Some? && DecimalValue(ParseRow(row).value, c) == ToDecimal(row[c]).value
  {
    assert !Read(row, c).Unreadable?;
  }

  /** Thousands separators in a stripped column do not change the parse: two rows that
      agree elsewhere and hold the same digits in column `c`, one grouped and one plain,
      parse alike. */
  lemma SeparatorsIgnored(grouped: RawRow, plain: RawRow, c: Column, digits: string)
    requires c.Stripped() && AllDigits(digits)
    requires c in grouped && grouped[c] == Group(digits)
    requires c in plain && plain[c] == digits
    requires forall d :: d != c ==> (d in grouped <==> d in plain)
    requires forall d :: d != c && d in grouped ==> grouped[d] == plain[d]
    ensures ParseRow(grouped) == ParseRow(plain)
  {
    forall d ensures Read(grouped, d) == Read(plain, d) {
      if d == c {
        GroupedColumnReads(grouped, plain, c, digits);
      } else if d in grouped {
        assert grouped[d] == plain[d];
      }
    }
    ReadsAgreeParse(grouped, plain);
  }

  /** Rows whose columns read alike parse alike. */
  lemma ReadsAgreeParse(a: RawRow, b: RawRow)
    requires forall c :: Read(a, c) == Read(b, c)
    ensures ParseRow(a) == ParseRow(b)
  {
    if WellFormed(a) {
      assert WellFormed(b);
      assert Build(a) == Build(b);
    } else {
      ReadsAgree(a, b, Columns);
    }
  }

  /** The grouped and the plain spelling of the same digits read alike in a stripped column. */
  lemma GroupedColumnReads(grouped: RawRow, plain: RawRow, c: Column, digits: string)
    requires c.Stripped() && AllDigits(digits)
    requires c in grouped && grouped[c] == Group(digits)
    requires c in plain && plain[c] == digits
    ensures Read(grouped, c) == Read(plain, c)
  {
    GroupReadsBack(digits);
    StrippedDigits(digits);
    assert ToCount(grouped[c]) == ToCount(plain[c]);
  }

  /** Rows whose columns read alike report the same first unreadable column. */
  lemma {:induction false} ReadsAgree(a: RawRow, b: RawRow, cols: seq<Column>)
    requires forall c :: Read(a, c) == Read(b, c)
    ensures FirstError(a, cols) == FirstError(b, cols)
  {
    if cols != [] {
      ReadsAgree(a, b, cols[1..]);
    }
  }

  /** Year, Month and the LF columns are not stripped: a comma there makes the row fail. */
  lemma CommaInUnstrippedColumnFails(row: RawRow, c: Column)
    requires !c.Stripped() && c in row && ',' in row[c]
    ensures ParseRow(row).Failure?
  {
    var i :| 0 <= i < |row[c]| && row[c][i] == ',';
    assert !AllDigits(row[c]) by {
      assert !IsDigit(row[c][i]);
    }
    assert Read(row, c).Unreadable?;
  }
}
