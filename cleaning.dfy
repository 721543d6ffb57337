/**
 * The cleaning pass over the raw voyage export: decoding fields as Latin-1
 * and reading them with the export's own missing-value rule, coercing the
 * date and numeric columns, the port-name repair (which text decoded as
 * Latin-1 never triggers), and deriving the travel duration.
 *
 * A table is a map from column name to its column of cells; the pass
 * overwrites columns of one `Frame` in place, as the script does with its
 * DataFrame. The date and number parsers of pandas are parameters: partial
 * functions that answer None where pandas would give up.
 */
module Cleaning {
  import opened Options
  import opened Seqs
  import opened Strings

  /** One field of the table: NaN/NaT, raw text, a timestamp in seconds, or a number. */
  datatype Cell = Missing | Text(text: string) | Time(seconds: int) | Number(value: real)

  type Columns = map<string, seq<Cell>>

  const DepartureTime := "etd_estimert_avgangstidspunkt"
  const ArrivalTime := "ankomsttidspunkt"
  const DateColumns: seq<string> := [DepartureTime, ArrivalTime]
  const NumericColumns: seq<string> :=
    ["byggeaar", "bruttotonnasje_bt", "doedvekttonn_dwt", "lengde", "bredde", "dypgaaende", "dypgaaende_aktuell"]
  const DepartureName := "avgangshavn_navn"
  const ArrivalName := "ankomsthavn_navn"
  const DurationColumn := "travel_duration_hours"

  /** The replacement character the repair looks for, and what it becomes. */
  const Mangled: char := '\U{FFFD}'
  const OSlash: char := '\U{F8}'
  const MangledBatsfjord := "B\U{FFFD}tsfjord"
  const Batsfjord := "B\U{E5}tsfjord"
  const MangledMjolstadneset := "Mj\U{FFFD}lstadneset"
  const Mjolstadneset := "Mj\U{F8}lstadneset"

  // ---- reading ----

  newtype byte = b: int | 0 <= b < 0x100

  /** Every character is one Latin-1 decoding can produce: U+0000 to U+00FF. */
  predicate LatinOne(s: string) {
    forall i :: 0 <= i < |s| ==> s[i] <= '\U{FF}'
  }

  /** `encoding="latin1"`: every byte becomes the character with the same code. */
  function DecodeLatin1(bytes: seq<byte>): (s: string)
    ensures |s| == |bytes| && forall i :: 0 <= i < |bytes| ==> s[i] as int == bytes[i] as int
    ensures LatinOne(s)
  {
    seq(|bytes|, i requires 0 <= i < |bytes| => bytes[i] as int as char)
  }

  /** Writing Latin-1 text back as bytes, one byte per character. */
  function EncodeLatin1(s: string): (bytes: seq<byte>)
    requires LatinOne(s)
    ensures |bytes| == |s| && forall i :: 0 <= i < |s| ==> bytes[i] as int == s[i] as int
  {
    seq(|s|, i requires 0 <= i < |s| => s[i] as int as byte)
  }

  /** Latin-1 decoding loses nothing: each text it can produce comes from exactly one byte string. */
  lemma LatinOneRoundTrip(s: string, bytes: seq<byte>)
    ensures LatinOne(s) ==> DecodeLatin1(EncodeLatin1(s)) == s
    ensures EncodeLatin1(DecodeLatin1(bytes)) == bytes
  {
    if LatinOne(s) {
      assert forall i :: 0 <= i < |s| ==> DecodeLatin1(EncodeLatin1(s))[i] == s[i];
    }
  }

  /** A raw field is missing exactly when it is "" or " "; any other text, "NA" included, stays text. */
  function ReadField(raw: string): (c: Cell)
    ensures c == Missing <==> raw == "" || raw == " "
    ensures c != Missing ==> c == Text(raw)
  {
    if raw == "" || raw == " " then Missing else Text(raw)
  }

  // ---- coercing conversion ----

  /** `pd.to_datetime(errors="coerce")` on one cell. */
  function ParseDate(c: Cell, parse: string -> Option<int>): (r: Cell)
    ensures r == Missing <==> c == Missing || (c.Text? && parse(c.text).None?)
    ensures c.Text? && parse(c.text).Some? ==> r == Time(parse(c.text).value)
    ensures !c.Text? ==> r == c
  {
    match c
    case Text(s) => (match parse(s) case Some(t) => Time(t) case None => Missing)
    case _ => c
  }

  /** `pd.to_numeric(errors="coerce")` on one cell. */
  function ParseNumber(c: Cell, parse: string -> Option<real>): (r: Cell)
    ensures r == Missing <==> c == Missing || (c.Text? && parse(c.text).None?)
    ensures c.Text? && parse(c.text).Some? ==> r == Number(parse(c.text).value)
    ensures !c.Text? ==> r == c
  {
    match c
    case Text(s) => (match parse(s) case Some(x) => Number(x) case None => Missing)
    case _ => c
  }

  /** No text survives a coercing conversion, so converting again changes nothing. */
  lemma ParseDateIdempotent(c: Cell, parse: string -> Option<int>)
    ensures !ParseDate(c, parse).Text?
    ensures ParseDate(ParseDate(c, parse), parse) == ParseDate(c, parse)
  {
  }

  lemma ParseNumberIdempotent(c: Cell, parse: string -> Option<real>)
    ensures !ParseNumber(c, parse).Text?
    ensures ParseNumber(ParseNumber(c, parse), parse) == ParseNumber(c, parse)
  {
  }

  // ---- encoding repair ----

  /** The chain for departure names: every mangled character becomes ø, then the Båtsfjord rule. */
  function RepairDeparture(s: string): (r: string)
    ensures |r| == |s|
    ensures forall i :: 0 <= i < |s| ==> r[i] == if s[i] == Mangled then OSlash else s[i]
    ensures Mangled !in r
  {
    DepartureRuleInert(s);
    ReplaceAll(ReplaceAll(s, [Mangled], [OSlash]), MangledBatsfjord, Batsfjord)
  }

  /** The chain for arrival names: every mangled character becomes ø, then the Mjølstadneset rule. */
  function RepairArrival(s: string): (r: string)
    ensures |r| == |s|
    ensures forall i :: 0 <= i < |s| ==> r[i] == if s[i] == Mangled then OSlash else s[i]
    ensures Mangled !in r
  {
    ArrivalRuleInert(s);
    ReplaceAll(ReplaceAll(s, [Mangled], [OSlash]), MangledMjolstadneset, Mjolstadneset)
  }

  /**
   * Once the first step has removed every mangled character, the Båtsfjord
   * pattern (which contains one) can no longer match: the second step of the
   * departure chain never changes anything.
   */
  lemma DepartureRuleInert(s: string)
    ensures ReplaceAll(ReplaceAll(s, [Mangled], [OSlash]), MangledBatsfjord, Batsfjord)
            == MapChar(s, Mangled, OSlash)
  {
    ReplaceCharIsMapChar(s, Mangled, OSlash);
    assert MangledBatsfjord[1] == Mangled;
    ReplaceAbsent(MapChar(s, Mangled, OSlash), MangledBatsfjord, Batsfjord, Mangled);
  }

  lemma ArrivalRuleInert(s: string)
    ensures ReplaceAll(ReplaceAll(s, [Mangled], [OSlash]), MangledMjolstadneset, Mjolstadneset)
            == MapChar(s, Mangled, OSlash)
  {
    ReplaceCharIsMapChar(s, Mangled, OSlash);
    assert MangledMjolstadneset[2] == Mangled;
    ReplaceAbsent(MapChar(s, Mangled, OSlash), MangledMjolstadneset, Mjolstadneset, Mangled);
  }

  /** A name with one mangled character between clean parts gets exactly that character repaired. */
  lemma RepairOneMangled(before: string, after: string)
    requires Mangled !in before && Mangled !in after
    ensures RepairDeparture(before + [Mangled] + after) == before + [OSlash] + after
    ensures RepairArrival(before + [Mangled] + after) == before + [OSlash] + after
  {
    var s := before + [Mangled] + after;
    var t := before + [OSlash] + after;
    assert forall i :: 0 <= i < |s| ==> (if s[i] == Mangled then OSlash else s[i]) == t[i];
  }

  /**
   * The intended "Båtsfjord" is never produced from its mangled form
   * "B\U{FFFD}tsfjord": the departure chain turns it into "Bøtsfjord".
   */
  lemma BatsfjordBecomesBotsfjord()
    ensures RepairDeparture("B" + [Mangled] + "tsfjord") == "B" + [OSlash] + "tsfjord"
    ensures RepairDeparture("B" + [Mangled] + "tsfjord") != "B" + ['\U{E5}'] + "tsfjord"
  {
    RepairOneMangled("B", "tsfjord");
    assert ("B" + [OSlash] + "tsfjord")[1] != ("B" + ['\U{E5}'] + "tsfjord")[1];
  }

  /** The Mjølstadneset rule is dead too, but the character step already yields the right name. */
  lemma MjolstadnesetRepaired()
    ensures RepairArrival("Mj" + [Mangled] + "lstadneset") == "Mj" + [OSlash] + "lstadneset"
  {
    RepairOneMangled("Mj", "lstadneset");
  }

  lemma {:induction false} RepairDepartureIdempotent(s: string)
    ensures RepairDeparture(RepairDeparture(s)) == RepairDeparture(s)
  {
    var r := RepairDeparture(s);
    assert RepairDeparture(r) == r;
  }

  lemma {:induction false} RepairArrivalIdempotent(s: string)
    ensures RepairArrival(RepairArrival(s)) == RepairArrival(s)
  {
    var r := RepairArrival(s);
    assert RepairArrival(r) == r;
  }

  /**
   * Text read as Latin-1 never holds the replacement character, so neither
   * chain changes a name the script can read.
   */
  lemma RepairInertOnLatinOne(s: string)
    requires LatinOne(s)
    ensures RepairDeparture(s) == s && RepairArrival(s) == s
  {
    assert forall i :: 0 <= i < |s| ==> s[i] != Mangled;
  }

  /** The Latin-1 bytes of "Båtsfjord" are read as "Båtsfjord", which the repair leaves as it is. */
  lemma ExportedBatsfjordKept()
    ensures LatinOne(Batsfjord)
    ensures ReadField(DecodeLatin1(EncodeLatin1(Batsfjord))) == Text(Batsfjord)
    ensures RepairCell(ReadField(DecodeLatin1(EncodeLatin1(Batsfjord))), true) == Text(Batsfjord)
  {
    LatinOneRoundTrip(Batsfjord, []);
    RepairInertOnLatinOne(Batsfjord);
  }

  /** `.str.replace` on a column: text is repaired, missing stays missing. */
  function RepairCell(c: Cell, departure: bool): (r: Cell)
    ensures c.Text? ==> r == Text(if departure then RepairDeparture(c.text) else RepairArrival(c.text))
    ensures !c.Text? ==> r == c
  {
    match c
    case Text(s) => Text(if departure then RepairDeparture(s) else RepairArrival(s))
    case _ => c
  }

  // ---- duration ----

  /** `(arrival - departure).dt.total_seconds() / 3600` for one row. */
  function Duration(departure: Cell, arrival: Cell): (r: Cell)
    ensures r.Number? <==> departure.Time? && arrival.Time?
    ensures !r.Number? ==> r == Missing
    ensures r.Number? ==> r.value * 3600.0 == (arrival.seconds - departure.seconds) as real
  {
    if departure.Time? && arrival.Time? then Number((arrival.seconds - departure.seconds) as real / 3600.0)
    else Missing
  }

  /** 10:00 to 13:30 on the same day is 3.5 hours. */
  lemma DurationExample()
    ensures Duration(Time(36000), Time(48600)) == Number(3.5)
  {
  }

  /** The duration is not clamped: an arrival before the departure gives a negative value. */
  lemma NegativeDurationKept(departure: int, arrival: int)
    requires arrival < departure
    ensures Duration(Time(departure), Time(arrival)).value < 0.0
  {
  }

  // ---- whole columns ----

  function MapColumn(col: seq<Cell>, f: Cell -> Cell): (r: seq<Cell>)
    ensures |r| == |col| && forall i :: 0 <= i < |col| ==> r[i] == f(col[i])
  {
    seq(|col|, i requires 0 <= i < |col| => f(col[i]))
  }

  function DurationColumnOf(departure: seq<Cell>, arrival: seq<Cell>): (r: seq<Cell>)
    requires |departure| == |arrival|
    ensures |r| == |departure| && forall i :: 0 <= i < |r| ==> r[i] == Duration(departure[i], arrival[i])
  {
    seq(|departure|, i requires 0 <= i < |departure| => Duration(departure[i], arrival[i]))
  }

  /** Every column has `height` cells. */
  predicate Rectangular(cols: Columns, height: nat) {
    forall c :: c in cols ==> |cols[c]| == height
  }

  /** The columns named in `names` that exist are converted cell by cell; no column is added. */
  function WithConverted(cols: Columns, names: seq<string>, f: Cell -> Cell): (r: Columns)
    ensures r.Keys == cols.Keys
    ensures forall c :: c in r ==> |r[c]| == |cols[c]|
    ensures forall c, i :: c in cols && c in names && 0 <= i < |cols[c]| ==> r[c][i] == f(cols[c][i])
    ensures forall c :: c in cols && c !in names ==> r[c] == cols[c]
  {
    map c | c in cols :: if c in names then MapColumn(cols[c], f) else cols[c]
  }

  /** Converting one more column of a list without repeats updates just that column, if present. */
  lemma ConvertedStep(cols: Columns, names: seq<string>, k: nat, f: Cell -> Cell)
    requires k < |names| && Distinct(names)
    ensures var before := WithConverted(cols, names[..k], f);
      WithConverted(cols, names[..k + 1], f)
        == if names[k] in before then before[names[k] := MapColumn(before[names[k]], f)] else before
  {
    var before := WithConverted(cols, names[..k], f);
    assert names[..k + 1] == names[..k] + [names[k]];
    assert names[k] !in names[..k];
  }

  /** The repair chain of one name column as a cell function. */
  function NameRepair(departure: bool): Cell -> Cell {
    x => RepairCell(x, departure)
  }

  /** Each name column gets its own repair chain; every other column is left alone. */
  function WithRepairedNames(cols: Columns): (r: Columns)
    ensures r.Keys == cols.Keys
    ensures forall c :: c in r ==> |r[c]| == |cols[c]|
    ensures DepartureName in cols ==>
      forall i :: 0 <= i < |cols[DepartureName]| ==> r[DepartureName][i] == RepairCell(cols[DepartureName][i], true)
    ensures ArrivalName in cols ==>
      forall i :: 0 <= i < |cols[ArrivalName]| ==> r[ArrivalName][i] == RepairCell(cols[ArrivalName][i], false)
    ensures forall c :: c in cols && c != DepartureName && c != ArrivalName ==> r[c] == cols[c]
  {
    map c | c in cols ::
      if c == DepartureName then MapColumn(cols[c], NameRepair(true))
      else if c == ArrivalName then MapColumn(cols[c], NameRepair(false))
      else cols[c]
  }

  /** The two date columns, when both exist, have one cell per row. */
  predicate DatesAligned(cols: Columns) {
    DepartureTime in cols && ArrivalTime in cols ==> |cols[DepartureTime]| == |cols[ArrivalTime]|
  }

  /** The duration column is added (or overwritten) exactly when both date columns exist. */
  function WithDuration(cols: Columns): (r: Columns)
    requires DatesAligned(cols)
    ensures r.Keys == cols.Keys + (if DepartureTime in cols && ArrivalTime in cols then {DurationColumn} else {})
    ensures forall c :: c in cols && c != DurationColumn ==> r[c] == cols[c]
    ensures DepartureTime in cols && ArrivalTime in cols ==>
      |r[DurationColumn]| == |cols[DepartureTime]| &&
      forall i :: 0 <= i < |cols[DepartureTime]| ==>
        r[DurationColumn][i] == Duration(cols[DepartureTime][i], cols[ArrivalTime][i])
    ensures !(DepartureTime in cols && ArrivalTime in cols) ==> r == cols
  {
    if DepartureTime in cols && ArrivalTime in cols
    then cols[DurationColumn := DurationColumnOf(cols[DepartureTime], cols[ArrivalTime])]
    else cols
  }

  /** `pd.to_datetime(..., errors="coerce")` as a cell function. */
  function DateConverter(parseDate: string -> Option<int>): Cell -> Cell {
    c => ParseDate(c, parseDate)
  }

  /** `pd.to_numeric(..., errors="coerce")` as a cell function. */
  function NumberConverter(parseNumber: string -> Option<real>): Cell -> Cell {
    c => ParseNumber(c, parseNumber)
  }

  /**
   * The whole pass, in the script's order. The cleaned table has the raw
   * columns, plus the duration column exactly when both date columns exist.
   */
  function CleanColumns(cols: Columns, parseDate: string -> Option<int>, parseNumber: string -> Option<real>): (r: Columns)
    requires DatesAligned(cols)
    ensures r.Keys == cols.Keys + (if DepartureTime in cols && ArrivalTime in cols then {DurationColumn} else {})
  {
    var dated := WithConverted(cols, DateColumns, DateConverter(parseDate));
    var numbered := WithConverted(dated, NumericColumns, NumberConverter(parseNumber));
    WithDuration(WithRepairedNames(numbered))
  }

  /** Every text cell of the table holds Latin-1 text, as every table the script reads does. */
  ghost predicate TextLatinOne(cols: Columns) {
    forall c, i :: c in cols && 0 <= i < |cols[c]| && cols[c][i].Text? ==> LatinOne(cols[c][i].text)
  }

  /**
   * The pass without the name repair: what the script computes on every
   * table it can read, with the port names left as the export spells them.
   */
  function CleanColumnsIntended(cols: Columns, parseDate: string -> Option<int>, parseNumber: string -> Option<real>): (r: Columns)
    requires DatesAligned(cols)
    ensures r.Keys == cols.Keys + (if DepartureTime in cols && ArrivalTime in cols then {DurationColumn} else {})
    ensures forall c :: c in cols && (c == DepartureName || c == ArrivalName) ==> r[c] == cols[c]
  {
    ColumnRoles();
    var dated := WithConverted(cols, DateColumns, DateConverter(parseDate));
    var numbered := WithConverted(dated, NumericColumns, NumberConverter(parseNumber));
    WithDuration(numbered)
  }

  /** On Latin-1 text the repair stage is dead: the pass equals the pass without it. */
  lemma RepairStageDead(cols: Columns, parseDate: string -> Option<int>, parseNumber: string -> Option<real>)
    requires DatesAligned(cols) && TextLatinOne(cols)
    ensures CleanColumns(cols, parseDate, parseNumber) == CleanColumnsIntended(cols, parseDate, parseNumber)
  {
    ColumnRoles();
    var dated := WithConverted(cols, DateColumns, DateConverter(parseDate));
    var numbered := WithConverted(dated, NumericColumns, NumberConverter(parseNumber));
    if DepartureName in numbered {
      var names := numbered[DepartureName];
      assert names == cols[DepartureName];
      forall i | 0 <= i < |names| ensures RepairCell(names[i], true) == names[i] {
        if names[i].Text? {
          RepairInertOnLatinOne(names[i].text);
        }
      }
    }
    if ArrivalName in numbered {
      var names := numbered[ArrivalName];
      assert names == cols[ArrivalName];
      forall i | 0 <= i < |names| ensures RepairCell(names[i], false) == names[i] {
        if names[i].Text? {
          RepairInertOnLatinOne(names[i].text);
        }
      }
    }
    RepairedFixed(numbered);
    assert CleanColumns(cols, parseDate, parseNumber) == WithDuration(numbered);
  }

  /** The stages touch disjoint columns. */
  lemma ColumnRoles()
    ensures forall c :: c in DateColumns ==> c !in NumericColumns && c != DepartureName && c != ArrivalName && c != DurationColumn
    ensures forall c :: c in NumericColumns ==> c != DepartureName && c != ArrivalName && c != DurationColumn
    ensures DepartureName != ArrivalName && DepartureName != DurationColumn && ArrivalName != DurationColumn
  {
  }

  /** Date and numeric columns, where present, are converted cell by cell with the coercing parsers. */
  lemma CleanConvertsCells(cols: Columns, parseDate: string -> Option<int>, parseNumber: string -> Option<real>)
    requires DatesAligned(cols)
    ensures var r := CleanColumns(cols, parseDate, parseNumber);
      forall c, i :: c in cols && c in DateColumns && 0 <= i < |cols[c]| ==>
        c in r && i < |r[c]| && r[c][i] == ParseDate(cols[c][i], parseDate)
    ensures var r := CleanColumns(cols, parseDate, parseNumber);
      forall c, i :: c in cols && c in NumericColumns && 0 <= i < |cols[c]| ==>
        c in r && i < |r[c]| && r[c][i] == ParseNumber(cols[c][i], parseNumber)
  {
    ColumnRoles();
    var dated := WithConverted(cols, DateColumns, DateConverter(parseDate));
    var numbered := WithConverted(dated, NumericColumns, NumberConverter(parseNumber));
    var repaired := WithRepairedNames(numbered);
    var r := CleanColumns(cols, parseDate, parseNumber);
    assert r == WithDuration(repaired);
    forall c | c in cols && c in DateColumns ensures r[c] == dated[c] {
      assert r[c] == repaired[c];
      assert repaired[c] == numbered[c];
    }
    forall c | c in cols && c in NumericColumns ensures r[c] == numbered[c] {
      assert r[c] == repaired[c];
    }
  }

  /** Each name column gets only its own chain; missing names stay missing. */
  lemma CleanRepairsNames(cols: Columns, parseDate: string -> Option<int>, parseNumber: string -> Option<real>)
    requires DatesAligned(cols)
    ensures DepartureName in cols ==>
      forall i :: 0 <= i < |cols[DepartureName]| ==>
        CleanColumns(cols, parseDate, parseNumber)[DepartureName][i] == RepairCell(cols[DepartureName][i], true)
    ensures ArrivalName in cols ==>
      forall i :: 0 <= i < |cols[ArrivalName]| ==>
        CleanColumns(cols, parseDate, parseNumber)[ArrivalName][i] == RepairCell(cols[ArrivalName][i], false)
  {
    ColumnRoles();
  }

  /** The duration of each row comes from that row's converted timestamps. */
  lemma CleanDurationCells(cols: Columns, parseDate: string -> Option<int>, parseNumber: string -> Option<real>)
    requires DatesAligned(cols)
    requires DepartureTime in cols && ArrivalTime in cols
    ensures forall i :: 0 <= i < |cols[DepartureTime]| ==>
      CleanColumns(cols, parseDate, parseNumber)[DurationColumn][i]
        == Duration(ParseDate(cols[DepartureTime][i], parseDate), ParseDate(cols[ArrivalTime][i], parseDate))
  {
    ColumnRoles();
  }

  lemma ConvertedFixed(cols: Columns, names: seq<string>, f: Cell -> Cell)
    requires forall c, i :: c in cols && c in names && 0 <= i < |cols[c]| ==> f(cols[c][i]) == cols[c][i]
    ensures WithConverted(cols, names, f) == cols
  {
    var r := WithConverted(cols, names, f);
    forall c | c in cols ensures r[c] == cols[c] {
      if c in names {
        assert forall i :: 0 <= i < |cols[c]| ==> r[c][i] == cols[c][i];
      }
    }
  }

  lemma CleanedDatesFixed(cols: Columns, parseDate: string -> Option<int>, parseNumber: string -> Option<real>)
    requires DatesAligned(cols)
    ensures var r := CleanColumns(cols, parseDate, parseNumber);
            WithConverted(r, DateColumns, DateConverter(parseDate)) == r
  {
    var r := CleanColumns(cols, parseDate, parseNumber);
    CleanConvertsCells(cols, parseDate, parseNumber);
    ColumnRoles();
    forall c, i | c in r && c in DateColumns && 0 <= i < |r[c]|
      ensures ParseDate(r[c][i], parseDate) == r[c][i]
    {
      ParseDateIdempotent(cols[c][i], parseDate);
    }
    ConvertedFixed(r, DateColumns, DateConverter(parseDate));
  }

  lemma CleanedNumbersFixed(cols: Columns, parseDate: string -> Option<int>, parseNumber: string -> Option<real>)
    requires DatesAligned(cols)
    ensures var r := CleanColumns(cols, parseDate, parseNumber);
            WithConverted(r, NumericColumns, NumberConverter(parseNumber)) == r
  {
    var r := CleanColumns(cols, parseDate, parseNumber);
    CleanConvertsCells(cols, parseDate, parseNumber);
    ColumnRoles();
    forall c, i | c in r && c in NumericColumns && 0 <= i < |r[c]|
      ensures ParseNumber(r[c][i], parseNumber) == r[c][i]
    {
      ParseNumberIdempotent(cols[c][i], parseNumber);
    }
    ConvertedFixed(r, NumericColumns, NumberConverter(parseNumber));
  }

  lemma RepairedFixed(cols: Columns)
    requires DepartureName in cols ==>
      forall i :: 0 <= i < |cols[DepartureName]| ==> RepairCell(cols[DepartureName][i], true) == cols[DepartureName][i]
    requires ArrivalName in cols ==>
      forall i :: 0 <= i < |cols[ArrivalName]| ==> RepairCell(cols[ArrivalName][i], false) == cols[ArrivalName][i]
    ensures WithRepairedNames(cols) == cols
  {
    var r := WithRepairedNames(cols);
    forall c | c in cols ensures r[c] == cols[c] {
      if c == DepartureName || c == ArrivalName {
        assert forall i :: 0 <= i < |cols[c]| ==> r[c][i] == cols[c][i];
      }
    }
  }

  lemma CleanedNamesFixed(cols: Columns, parseDate: string -> Option<int>, parseNumber: string -> Option<real>)
    requires DatesAligned(cols)
    ensures var r := CleanColumns(cols, parseDate, parseNumber);
            WithRepairedNames(r) == r
  {
    var r := CleanColumns(cols, parseDate, parseNumber);
    CleanRepairsNames(cols, parseDate, parseNumber);
    if DepartureName in cols {
      forall i | 0 <= i < |r[DepartureName]|
        ensures RepairCell(r[DepartureName][i], true) == r[DepartureName][i]
      {
        var x := cols[DepartureName][i];
        if x.Text? { RepairDepartureIdempotent(x.text); }
      }
    }
    if ArrivalName in cols {
      forall i | 0 <= i < |r[ArrivalName]|
        ensures RepairCell(r[ArrivalName][i], false) == r[ArrivalName][i]
      {
        var x := cols[ArrivalName][i];
        if x.Text? { RepairArrivalIdempotent(x.text); }
      }
    }
    RepairedFixed(r);
  }

  lemma CleanedDurationFixed(cols: Columns, parseDate: string -> Option<int>, parseNumber: string -> Option<real>)
    requires DatesAligned(cols)
    ensures var r := CleanColumns(cols, parseDate, parseNumber);
            DatesAligned(r) && WithDuration(r) == r
  {
    var r := CleanColumns(cols, parseDate, parseNumber);
    ColumnRoles();
    CleanConvertsCells(cols, parseDate, parseNumber);
    if DepartureTime in cols && ArrivalTime in cols {
      CleanDurationCells(cols, parseDate, parseNumber);
      var dep, arr := r[DepartureTime], r[ArrivalTime];
      assert |dep| == |arr| == |cols[DepartureTime]|;
      assert r[DurationColumn] == DurationColumnOf(dep, arr);
      DurationFixed(r);
    } else {
      assert WithDuration(r) == r;
    }
  }

  /** A table whose duration column already is the duration of its dates is left alone by `WithDuration`. */
  lemma DurationFixed(cols: Columns)
    requires DepartureTime in cols && ArrivalTime in cols && DurationColumn in cols
    requires |cols[DepartureTime]| == |cols[ArrivalTime]|
    requires cols[DurationColumn] == DurationColumnOf(cols[DepartureTime], cols[ArrivalTime])
    ensures WithDuration(cols) == cols
  {
  }

  /** Running the cleaning pass on its own output changes nothing. */
  lemma CleanIdempotent(cols: Columns, parseDate: string -> Option<int>, parseNumber: string -> Option<real>)
    requires DatesAligned(cols)
    ensures DatesAligned(CleanColumns(cols, parseDate, parseNumber))
    ensures CleanColumns(CleanColumns(cols, parseDate, parseNumber), parseDate, parseNumber)
            == CleanColumns(cols, parseDate, parseNumber)
  {
    CleanedDatesFixed(cols, parseDate, parseNumber);
    CleanedNumbersFixed(cols, parseDate, parseNumber);
    CleanedNamesFixed(cols, parseDate, parseNumber);
    CleanedDurationFixed(cols, parseDate, parseNumber);
  }

  /** The DataFrame of the cleaning script, updated column by column. */
  class Frame {
    var height: nat
    var columns: Columns

    ghost predicate Valid()
      reads this
    {
      Rectangular(columns, height)
    }

    /**
     * `pd.read_csv(..., encoding="latin1", na_values=["", " "], keep_default_na=False)`
     * on fields already split into bytes.
     */
    constructor Read(raw: map<string, seq<seq<byte>>>, height: nat)
      requires forall c :: c in raw ==> |raw[c]| == height
      ensures Valid() && this.height == height
      ensures columns.Keys == raw.Keys
      ensures forall c, i :: c in raw && 0 <= i < height ==> columns[c][i] == ReadField(DecodeLatin1(raw[c][i]))
      ensures TextLatinOne(columns)
    {
      this.height := height;
      columns := map c | c in raw :: seq(|raw[c]|, i requires 0 <= i < |raw[c]| => ReadField(DecodeLatin1(raw[c][i])));
    }

    /** `for col in names: if col in df.columns: df[col] = convert(df[col])`. */
    method ConvertColumns(names: seq<string>, f: Cell -> Cell)
      requires Valid() && Distinct(names)
      modifies this
      ensures Valid() && height == old(height)
      ensures columns == WithConverted(old(columns), names, f)
    {
      ghost var start := columns;
      for k := 0 to |names|
        invariant Valid() && height == old(height)
        invariant columns == WithConverted(start, names[..k], f)
      {
        ConvertedStep(start, names, k, f);
        if names[k] in columns {
          columns := columns[names[k] := MapColumn(columns[names[k]], f)];
        }
      }
      assert names[..|names|] == names;
    }

    method RepairNames()
      requires Valid()
      modifies this
      ensures Valid() && height == old(height)
      ensures columns == WithRepairedNames(old(columns))
    {
      if DepartureName in columns {
        columns := columns[DepartureName := MapColumn(columns[DepartureName], NameRepair(true))];
      }
      if ArrivalName in columns {
        columns := columns[ArrivalName := MapColumn(columns[ArrivalName], NameRepair(false))];
      }
    }

    method AddDuration()
      requires Valid()
      modifies this
      ensures Valid() && height == old(height)
      ensures columns == WithDuration(old(columns))
    {
      if DepartureTime in columns && ArrivalTime in columns {
        columns := columns[DurationColumn := DurationColumnOf(columns[DepartureTime], columns[ArrivalTime])];
      }
    }

    /** The cleaning script from the conversions to the duration column. */
    method Clean(parseDate: string -> Option<int>, parseNumber: string -> Option<real>)
      requires Valid()
      modifies this
      ensures Valid() && height == old(height)
      ensures columns == CleanColumns(old(columns), parseDate, parseNumber)
      ensures TextLatinOne(old(columns)) ==> columns == CleanColumnsIntended(old(columns), parseDate, parseNumber)
    {
      if TextLatinOne(columns) {
        RepairStageDead(columns, parseDate, parseNumber);
      }
      ConvertColumns(DateColumns, DateConverter(parseDate));
      ConvertColumns(NumericColumns, NumberConverter(parseNumber));
      RepairNames();
      AddDuration();
    }
  }
}
