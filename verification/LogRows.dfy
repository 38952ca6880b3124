/** The key/value rows of MicroBitLog: beginRow, logData and endRow, printed as CSV. */
module LogRows {
  import opened Arith
  import opened Nor
  import opened LogText
  import opened Csv
  import opened LogFormat
  import opened LogClear
  import USB = UsbFlash
  import opened MicroBitLog
  import FSC = FSCache

  datatype Column = Column(key: Field, value: Field)

  datatype Status = Ok | InvalidState | NoResources

  /** What a session has asked the log to hold: changes of heading, and rows as mappings from
      key to the last value logged for it. */
  datatype Entry = Heading(keys: seq<Field>) | Row(values: map<Field, Field>)

  function Lookup(values: map<Field, Field>, key: Field): Field { if key in values then values[key] else [] }

  function Values(values: map<Field, Field>, keys: seq<Field>): (r: seq<Field>)
    ensures |r| == |keys|
  {
    seq(|keys|, i requires 0 <= i < |keys| => Lookup(values, keys[i]))
  }

  /** The headings in force after the entries of a session that began with those in keys0. */
  function HeadingsAfter(table: seq<Entry>, keys0: seq<Field>): seq<Field>
  {
    if table == [] then keys0
    else if table[|table| - 1].Heading? then table[|table| - 1].keys
    else HeadingsAfter(table[..|table| - 1], keys0)
  }

  /** The lines a reader of the log must see: each row has one field for every key of the
      latest heading above it, holding that key's value, or nothing. */
  function Lines(table: seq<Entry>, keys0: seq<Field>): seq<seq<Field>>
  {
    if table == [] then []
    else
      var before, last := table[..|table| - 1], table[|table| - 1];
      Lines(before, keys0) + [if last.Heading? then last.keys else Values(last.values, HeadingsAfter(before, keys0))]
  }

  function Keys(rowData: seq<Column>): (r: seq<Field>)
    ensures |r| == |rowData|
  {
    seq(|rowData|, i requires 0 <= i < |rowData| => rowData[i].key)
  }

  function RowValues(rowData: seq<Column>): (r: seq<Field>)
    ensures |r| == |rowData|
  {
    seq(|rowData|, i requires 0 <= i < |rowData| => rowData[i].value)
  }

  ghost predicate Distinct(keys: seq<Field>)
  {
    forall i, j :: 0 <= i < j < |keys| ==> keys[i] != keys[j]
  }

  /** The columns hold exactly the values logged in the current row. */
  ghost predicate Represents(rowData: seq<Column>, values: map<Field, Field>)
  {
    && Distinct(Keys(rowData))
    && (forall i :: 0 <= i < |rowData| ==>
        IsField(rowData[i].key) && IsField(rowData[i].value) && rowData[i].value == Lookup(values, rowData[i].key))
    && (forall k :: k in values ==> FindKey(rowData, k) >= 0)
  }

  /** The column with the given key, or -1. */
  function FindKey(rowData: seq<Column>, key: Field): (r: int)
    ensures -1 <= r < |rowData|
    ensures r >= 0 ==> rowData[r].key == key
    ensures r < 0 <==> forall i :: 0 <= i < |rowData| ==> rowData[i].key != key
  {
    if rowData == [] then -1
    else
      var n := |rowData| - 1;
      var r := FindKey(rowData[..n], key);
      if r >= 0 then r else if rowData[n].key == key then n else -1
  }

  predicate HasData(rowData: seq<Column>) { exists i :: 0 <= i < |rowData| && rowData[i].value != [] }

  /** logData on the columns: set the value of the key's column, or add a column. */
  function Logged(rowData: seq<Column>, key: Field, value: Field): seq<Column>
  {
    var i := FindKey(rowData, key);
    if i >= 0 then rowData[i := rowData[i].(value := value)] else rowData + [Column(key, value)]
  }

  lemma LoggedRepresents(rowData: seq<Column>, values: map<Field, Field>, key: Field, value: Field)
    requires Represents(rowData, values) && IsField(key) && IsField(value)
    ensures Represents(Logged(rowData, key, value), values[key := value])
  {
    hide IsField, Lookup, FindKey;
    var r := Logged(rowData, key, value);
    LoggedKeysAre(rowData, key, value);
    forall k {:trigger FindKey(r, k)} | k in values[key := value] ensures FindKey(r, k) >= 0 {
      LoggedHas(rowData, key, value, k);
    }
    forall j | 0 <= j < |r|
      ensures IsField(r[j].key) && IsField(r[j].value) && r[j].value == Lookup(values[key := value], r[j].key)
    {
      LoggedAt(rowData, key, value, j);
      LookupAfter(values, key, value, r[j].key);
    }
  }

  lemma LoggedKeysAre(rowData: seq<Column>, key: Field, value: Field)
    ensures Distinct(Keys(rowData)) ==> Distinct(Keys(Logged(rowData, key, value)))
  {
    var r, i := Logged(rowData, key, value), FindKey(rowData, key);
    assert Keys(r) == if i >= 0 then Keys(rowData) else Keys(rowData) + [key];
  }

  lemma LoggedHas(rowData: seq<Column>, key: Field, value: Field, k: Field)
    requires FindKey(rowData, k) >= 0 || k == key
    ensures FindKey(Logged(rowData, key, value), k) >= 0
  {
    var r, j := Logged(rowData, key, value), FindKey(rowData, k);
    if j >= 0 {
      assert r[j].key == k;
    } else {
      assert r[|r| - 1].key == k;
    }
  }

  /** A column is the one logged, or as before under another key. */
  lemma LoggedAt(rowData: seq<Column>, key: Field, value: Field, j: nat)
    requires Distinct(Keys(rowData)) && j < |Logged(rowData, key, value)|
    ensures var c := Logged(rowData, key, value)[j];
            c == Column(key, value) || (j < |rowData| && c == rowData[j] && c.key != key)
  {
    var i := FindKey(rowData, key);
    if j < |rowData| && i >= 0 {
      assert Keys(rowData)[j] == rowData[j].key && Keys(rowData)[i] == rowData[i].key;
    }
  }

  lemma LookupAfter(values: map<Field, Field>, key: Field, value: Field, k: Field)
    ensures Lookup(values[key := value], k) == if k == key then value else Lookup(values, k)
  {}

  lemma RepresentsValues(rowData: seq<Column>, values: map<Field, Field>)
    requires Represents(rowData, values)
    ensures RowValues(rowData) == Values(values, Keys(rowData)) && AllFields(RowValues(rowData))
            && AllFields(Keys(rowData))
  {}

  /** Every entry is made of fields, and rows come under some heading. */
  ghost predicate TableOk(table: seq<Entry>, keys0: seq<Field>)
  {
    if table == [] then AllFields(keys0)
    else
      var before, last := table[..|table| - 1], table[|table| - 1];
      && TableOk(before, keys0)
      && match last
         case Heading(keys) => keys != [] && AllFields(keys)
         case Row(values) =>
           HeadingsAfter(before, keys0) != [] && AllFields(Values(values, HeadingsAfter(before, keys0)))
  }

  lemma {:induction false} LinesFields(table: seq<Entry>, keys0: seq<Field>)
    requires TableOk(table, keys0)
    ensures AllFields(HeadingsAfter(table, keys0)) && |Lines(table, keys0)| == |table|
    ensures forall i :: 0 <= i < |table| ==> Lines(table, keys0)[i] != [] && AllFields(Lines(table, keys0)[i])
  {
    if table != [] {
      LinesFields(table[..|table| - 1], keys0);
      hide AllFields;
    }
  }

  /** What a session has printed parses back to its lines. */
  lemma LinesRead(table: seq<Entry>, keys0: seq<Field>)
    requires TableOk(table, keys0)
    ensures Parse(Render(Lines(table, keys0))) == Lines(table, keys0)
  {
    LinesFields(table, keys0);
    ParseRender(Lines(table, keys0));
  }

  /** A row has as many fields as the latest heading above it, and its field under a key is
      the value logged for that key, or empty. */
  lemma {:induction false} RowShape(table: seq<Entry>, keys0: seq<Field>, i: nat, j: nat)
    requires i < |table| && table[i].Row?
    ensures var keys := HeadingsAfter(table[..i], keys0); var lines := Lines(table, keys0);
            |lines| == |table| && |lines[i]| == |keys|
                && (j < |keys| ==> lines[i][j] == if keys[j] in table[i].values then table[i].values[keys[j]] else [])
  {
    var before := table[..|table| - 1];
    LinesLength(before, keys0);
    if i < |before| {
      RowShape(before, keys0, i, j);
      assert before[..i] == table[..i];
    }
  }

  lemma LinesLength(table: seq<Entry>, keys0: seq<Field>)
    ensures |Lines(table, keys0)| == |table|
  {}

  lemma AddHeadingLine(table: seq<Entry>, keys0: seq<Field>, keys: seq<Field>)
    requires TableOk(table, keys0) && keys != [] && AllFields(keys)
    ensures var t := table + [Heading(keys)];
            && TableOk(t, keys0) && HeadingsAfter(t, keys0) == keys
            && Render(Lines(t, keys0)) == Render(Lines(table, keys0)) + Line(keys)
  {
    var t := table + [Heading(keys)];
    assert t[..|t| - 1] == table;
    var lines := Lines(t, keys0);
    assert lines[..|lines| - 1] == Lines(table, keys0);
    hide AllFields;
  }

  lemma AddRowLine(table: seq<Entry>, keys0: seq<Field>, rowData: seq<Column>, values: map<Field, Field>)
    requires TableOk(table, keys0) && Represents(rowData, values) && rowData != []
             && HeadingsAfter(table, keys0) == Keys(rowData)
    ensures var t := table + [Row(values)];
            && TableOk(t, keys0) && HeadingsAfter(t, keys0) == HeadingsAfter(table, keys0)
            && Render(Lines(t, keys0)) == Render(Lines(table, keys0)) + Line(RowValues(rowData))
  {
    RepresentsValues(rowData, values);
    var t := table + [Row(values)];
    assert t[..|t| - 1] == table;
    var lines := Lines(t, keys0);
    assert lines[..|lines| - 1] == Lines(table, keys0);
    hide AllFields, Represents;
  }

  /** The entries of a row, and of its headings if they changed. */
  function Printed(changed: bool, keys: seq<Field>, validData: bool, values: map<Field, Field>): seq<Entry>
  {
    (if changed then [Heading(keys)] else []) + (if validData then [Row(values)] else [])
  }

  /** The columns hold the current row, and come under the latest heading printed unless they
      have changed since. */
  ghost predicate Sound(rowData: seq<Column>, values: map<Field, Field>, headingsChanged: bool, table: seq<Entry>,
                        keys0: seq<Field>)
  {
    && Represents(rowData, values) && TableOk(table, keys0)
    && (if headingsChanged then |HeadingsAfter(table, keys0)| < |rowData|
        else HeadingsAfter(table, keys0) == Keys(rowData))
  }

  /** The flag tells whether the columns are still those of the latest heading. */
  lemma ChangedColumns(rowData: seq<Column>, values: map<Field, Field>, headingsChanged: bool, table: seq<Entry>,
                       keys0: seq<Field>)
    requires Sound(rowData, values, headingsChanged, table, keys0)
    ensures headingsChanged <==>
              !(|HeadingsAfter(table, keys0)| == |rowData|
                && forall i :: 0 <= i < |rowData| ==> HeadingsAfter(table, keys0)[i] == rowData[i].key)
  {
    assert Keys(rowData) == HeadingsAfter(table, keys0) || headingsChanged;
    hide Represents, TableOk;
  }

  /** The headings in force are the keys of the last heading printed, or those there were. */
  lemma {:induction false} LatestHeading(table: seq<Entry>, keys0: seq<Field>, i: nat)
    requires i <= |table| && forall k :: i <= k < |table| ==> table[k].Row?
    ensures i == 0 ==> HeadingsAfter(table, keys0) == keys0
    ensures i > 0 && table[i - 1].Heading? ==> HeadingsAfter(table, keys0) == table[i - 1].keys
  {
    if i < |table| {
      LatestHeading(table[..|table| - 1], keys0, i);
    }
  }

  /** Ending a row with these columns and values adds to the table: a heading with the columns
      as they are then, if they have changed; and a row with the values and the timestamp, if
      any value is not empty. The timestamp may bring a column of its own. */
  ghost predicate RowEnded(rowData: seq<Column>, values: map<Field, Field>, headingsChanged: bool, stamped: bool,
                           heading: Field, stamp: Field, rowData': seq<Column>, added: seq<Entry>)
  {
    var some := exists k :: k in values && values[k] != [];
    var stampColumn := some && stamped && forall i :: 0 <= i < |rowData| ==> rowData[i].key != heading;
    var row := if stamped then values[heading := stamp] else values;
    && |rowData'| == |rowData| + (if stampColumn then 1 else 0)
    && (forall i :: 0 <= i < |rowData| ==> rowData'[i].key == rowData[i].key)
    && (stampColumn ==> rowData'[|rowData|].key == heading)
    && |added| == (if headingsChanged || stampColumn then 1 else 0) + (if some then 1 else 0)
    && (headingsChanged || stampColumn ==>
        && added[0].Heading? && |added[0].keys| == |rowData'|
        && forall i :: 0 <= i < |rowData'| ==> added[0].keys[i] == rowData'[i].key)
    && (some ==> added[|added| - 1] == Row(row))
  }

  lemma SomeValue(rowData: seq<Column>, values: map<Field, Field>)
    requires Represents(rowData, values)
    ensures HasData(rowData) <==> exists k :: k in values && values[k] != []
  {
    if HasData(rowData) {
      var i :| 0 <= i < |rowData| && rowData[i].value != [];
      assert rowData[i].key in values && values[rowData[i].key] != [];
    }
    if k :| k in values && values[k] != [] {
      var i := FindKey(rowData, k);
      assert rowData[i].value != [];
    }
  }

  /** Only the keys of the columns matter. */
  lemma EndedColumns(rowData: seq<Column>, values: map<Field, Field>, headingsChanged: bool, stamped: bool,
                     heading: Field, stamp: Field, rowData1: seq<Column>, rowData2: seq<Column>, added: seq<Entry>)
    requires Keys(rowData1) == Keys(rowData2)
    ensures RowEnded(rowData, values, headingsChanged, stamped, heading, stamp, rowData1, added) ==>
              RowEnded(rowData, values, headingsChanged, stamped, heading, stamp, rowData2, added)
  {
    assert forall i :: 0 <= i < |rowData1| ==> Keys(rowData1)[i] == rowData1[i].key;
    assert forall i :: 0 <= i < |rowData2| ==> Keys(rowData2)[i] == rowData2[i].key;
  }

  /** What endRow prints is what RowEnded says. */
  lemma ClosedEnds(rowData: seq<Column>, values: map<Field, Field>, headingsChanged: bool, stamped: bool,
                   heading: Field, stamp: Field)
    requires Represents(rowData, values)
    ensures var data := HasData(rowData);
            var (columns, row) := if data && stamped then (Logged(rowData, heading, stamp), values[heading := stamp])
                                  else (rowData, values);
            var changed := headingsChanged || (data && stamped && FindKey(rowData, heading) < 0);
            RowEnded(rowData, values, headingsChanged, stamped, heading, stamp, columns,
                     Printed(changed, Keys(columns), data, row))
  {
    hide Represents, HasData;
    SomeValue(rowData, values);
    var columns := if HasData(rowData) && stamped then Logged(rowData, heading, stamp) else rowData;
    assert forall i :: 0 <= i < |columns| ==> Keys(columns)[i] == columns[i].key;
  }

  /** The log holds what the session found and then the lines of its table. */
  ghost predicate Shows(contents: seq<bv8>, base: seq<bv8>, table: seq<Entry>, keys0: seq<Field>)
  {
    contents == base + Render(Lines(table, keys0))
  }

  lemma ShowsMore(contents: seq<bv8>, base: seq<bv8>, table: seq<Entry>, table': seq<Entry>, keys0: seq<Field>,
                  line: seq<bv8>)
    requires Render(Lines(table', keys0)) == Render(Lines(table, keys0)) + line
    ensures Shows(contents, base, table, keys0) ==> Shows(contents + line, base, table', keys0)
  {
    assert base + Render(Lines(table, keys0)) + line == base + (Render(Lines(table, keys0)) + line);
  }

  lemma HeadingPrinted(contents: seq<bv8>, base: seq<bv8>, rowData: seq<Column>, values: map<Field, Field>,
                       table: seq<Entry>, keys0: seq<Field>)
    requires Sound(rowData, values, true, table, keys0)
    ensures AllFields(Keys(rowData)) && Keys(rowData) != []
    ensures Sound(rowData, values, false, table + [Heading(Keys(rowData))], keys0)
    ensures Shows(contents, base, table, keys0) ==>
              Shows(contents + Line(Keys(rowData)), base, table + [Heading(Keys(rowData))], keys0)
  {
    RepresentsValues(rowData, values);
    AddHeadingLine(table, keys0, Keys(rowData));
    hide Represents, AllFields, Lines, Render, Line, Keys, TableOk, HeadingsAfter, Shows;
    ShowsMore(contents, base, table, table + [Heading(Keys(rowData))], keys0, Line(Keys(rowData)));
  }

  lemma RowPrinted(contents: seq<bv8>, base: seq<bv8>, rowData: seq<Column>, values: map<Field, Field>,
                   table: seq<Entry>, keys0: seq<Field>)
    requires Sound(rowData, values, false, table, keys0) && rowData != []
    ensures AllFields(RowValues(rowData))
    ensures Sound(rowData, values, false, table + [Row(values)], keys0)
    ensures Shows(contents, base, table, keys0) ==>
              Shows(contents + Line(RowValues(rowData)), base, table + [Row(values)], keys0)
  {
    RepresentsValues(rowData, values);
    AddRowLine(table, keys0, rowData, values);
    hide Represents, AllFields, Lines, Render, Line, Keys, RowValues, TableOk, HeadingsAfter, Shows;
    ShowsMore(contents, base, table, table + [Row(values)], keys0, Line(RowValues(rowData)));
  }

  lemma ColumnsReset(rowData: seq<Column>, values: map<Field, Field>, headingsChanged: bool, table: seq<Entry>,
                     keys0: seq<Field>, blank: seq<Column>)
    requires Sound(rowData, values, headingsChanged, table, keys0) && |blank| == |rowData|
    requires forall k :: 0 <= k < |rowData| ==> blank[k] == Column(rowData[k].key, [])
    ensures Sound(blank, map[], headingsChanged, table, keys0) && Keys(blank) == Keys(rowData)
  {
    assert Keys(blank) == Keys(rowData);
    hide TableOk, HeadingsAfter;
  }

  lemma ColumnAdded(rowData: seq<Column>, values: map<Field, Field>, headingsChanged: bool, table: seq<Entry>,
                    keys0: seq<Field>, key: Field, value: Field, head: bool)
    requires Sound(rowData, values, headingsChanged, table, keys0) && IsField(key) && IsField(value)
             && FindKey(rowData, key) < 0
    ensures Sound(Added(rowData, key, value, head), values[key := value], true, table, keys0)
  {
    AddedRepresents(rowData, values, key, value, head);
    hide Represents, IsField, TableOk, HeadingsAfter;
  }

  lemma ColumnSet(rowData: seq<Column>, values: map<Field, Field>, headingsChanged: bool, table: seq<Entry>,
                  keys0: seq<Field>, key: Field, value: Field)
    requires Sound(rowData, values, headingsChanged, table, keys0) && IsField(key) && IsField(value)
             && FindKey(rowData, key) >= 0
    ensures Sound(Logged(rowData, key, value), values[key := value], headingsChanged, table, keys0)
  {
    LoggedRepresents(rowData, values, key, value);
    LoggedKeys(rowData, key, value);
    hide Represents, IsField, TableOk, HeadingsAfter;
  }

  lemma ColumnsLoaded(rowData: seq<Column>, keys: seq<Field>)
    requires |rowData| == |keys| && forall k :: 0 <= k < |keys| ==> rowData[k] == Column(keys[k], [])
    ensures Keys(rowData) == keys && !HasData(rowData)
    ensures AllFields(keys) && Distinct(keys) ==> Sound(rowData, map[], false, [], keys)
  {
    assert Keys(rowData) == keys;
  }

  class RowLog {
    const log: MicroBitLog
    var rowData: seq<Column>
    var headingsChanged: bool
    var rowStarted: bool
    var stamped: bool                 // timeStampFormat is not None
    var timeStampHeading: Field
    ghost var values: map<Field, Field>  // the last value logged for each key since the row began
    ghost var table: seq<Entry>       // what this session has printed
    ghost var keys0: seq<Field>       // the headings it found
    ghost var base: seq<bv8>          // the text it found

    ghost predicate Valid()
      reads this, log, log.flash, log.cache, log.cache.cache
    {
      && Ready() && Sound(rowData, values, headingsChanged, table, keys0)
      && (stamped ==> IsField(timeStampHeading))
      && (!log.full ==> Shows(log.contents, base, table, keys0))
    }

    ghost predicate Ready()
      reads log, log.flash, log.cache, log.cache.cache
    {
      log.Valid() && (log.headingStart == 0 || HeadingBase(log.geo) <= log.headingStart)
    }

    /** On a log that holds nothing yet. */
    constructor (log: MicroBitLog)
      requires log.Valid() && (log.headingStart == 0 || HeadingBase(log.geo) <= log.headingStart)
      ensures Valid() && this.log == log && rowData == [] && table == [] && keys0 == [] && base == log.contents
              && !rowStarted
    {
      this.log := log;
      rowData, headingsChanged, rowStarted, stamped, timeStampHeading := [], false, false, false, [];
      values, table, keys0, base := map[], [], [], log.contents;
    }

    /** The log reads as what was there before the session, and then the session's table. If
        the text before ends in the middle of a line, the first line continues that. */
    lemma ContentsRead()
      requires Valid() && !log.full
      ensures Parse(log.contents) == Parse(base) + Continued(Tail(base), Lines(table, keys0))
      ensures base == [] || base[|base| - 1] == NEWLINE ==> Parse(log.contents) == Parse(base) + Lines(table, keys0)
    {
      LinesFields(table, keys0);
      hide Lines, AllFields;
      ParseOnto(base, Lines(table, keys0));
    }

    method FindColumn(key: Field) returns (r: int)
      ensures r == FindKey(rowData, key)
    {
      r := 0;
      while r < |rowData|
        invariant 0 <= r <= |rowData| && forall k :: 0 <= k < r ==> rowData[k].key != key
      {
        if rowData[r].key == key {
          FirstKey(rowData, key, r);
          return;
        }
        r := r + 1;
      }
      return -1;
    }

    /** Adds a column, unless there is one with that key. */
    method AddHeading(key: Field, value: Field, head: bool)
      requires Valid() && IsField(key) && IsField(value)
      modifies this`rowData, this`headingsChanged, this`values
      ensures Valid()
      ensures FindKey(old(rowData), key) >= 0 ==>
                rowData == old(rowData) && values == old(values) && headingsChanged == old(headingsChanged)
      ensures FindKey(old(rowData), key) < 0 ==>
                rowData == Added(old(rowData), key, value, head) && values == old(values)[key := value]
                    && headingsChanged
      ensures rowData == if exists i :: 0 <= i < |old(rowData)| && old(rowData)[i].key == key then old(rowData)
              else if head then [Column(key, value)] + old(rowData) else old(rowData) + [Column(key, value)]
    {
      AddedIs(rowData, key, value, head);
      hide Sound, Shows, IsField, Ready, FindKey, Added;
      var i := FindColumn(key);
      if i >= 0 {
        return;
      }
      ColumnAdded(rowData, values, headingsChanged, table, keys0, key, value, head);
      rowData := Added(rowData, key, value, head);
      headingsChanged := true;
      values := values[key := value];
    }

    /** timeStampFormat and its heading; None is no heading. A new timestamp column goes in
        front while no data has been written. */
    method SetTimeStamp(heading: Field, enable: bool)
      requires Valid() && IsField(heading)
      modifies this`stamped, this`timeStampHeading, this`rowData, this`headingsChanged, this`values
      ensures Valid() && stamped == enable
      ensures enable ==> timeStampHeading == heading && FindKey(rowData, heading) >= 0
      ensures rowData == if enable && FindKey(old(rowData), heading) < 0 then
                Added(old(rowData), heading, [], log.dataEnd == log.geo.data) else old(rowData)
      ensures rowData == if !enable || exists i :: 0 <= i < |old(rowData)| && old(rowData)[i].key == heading
              then old(rowData)
              else if log.dataEnd == log.geo.data then [Column(heading, [])] + old(rowData)
              else old(rowData) + [Column(heading, [])]
      ensures forall k :: Lookup(values, k) == old(Lookup(values, k))
    {
      hide Sound, Shows, IsField, Ready, Added, Lookup, FindKey;
      stamped := enable;
      if !enable {
        return;
      }
      timeStampHeading := heading;
      EmptyField();
      ghost var before := rowData;
      AddedIs(rowData, heading, [], log.geo.data == log.dataEnd);
      LoggedFound(rowData, values, headingsChanged, table, keys0, heading);
      AddedFound(before, heading, log.dataEnd == log.geo.data);
      AddHeading(heading, [], log.geo.data == log.dataEnd);
      NotLogged(before, values, old(values), heading);
    }

    /** The columns and values as endRow prints them: with the timestamp, if the row has data. */
    ghost function Closed(stamp: Field): (seq<Column>, map<Field, Field>)
      reads this
    {
      if HasData(rowData) && stamped then (Logged(rowData, timeStampHeading, stamp), values[timeStampHeading := stamp])
      else (rowData, values)
    }

    ghost predicate ClosedHeadingsChanged()
      reads this
    {
      headingsChanged || (HasData(rowData) && stamped && FindKey(rowData, timeStampHeading) < 0)
    }

    /** logString will take the lines endRow prints, the row behind new headings, and the new
        headings fit their page. */
    ghost predicate Fits(stamp: Field)
      reads this, log
    {
      var columns := Closed(stamp).0;
      FitsAs(ClosedHeadingsChanged(), Line(Keys(columns)), HasData(rowData), Line(RowValues(columns)))
    }

    ghost predicate FitsAs(changed: bool, heading: seq<bv8>, validData: bool, row: seq<bv8>)
      reads log
    {
      && (changed ==> Takes(log.geo, log.dataEnd, |heading|) && HeadingsFit(heading))
      && (validData ==> Takes(log.geo, if changed then EndAfter(log.geo, log.dataEnd, |heading|)
                              else log.dataEnd, |row|))
    }

    ghost predicate HeadingsFit(heading: seq<bv8>)
      reads log
    {
      (if log.headingStart == 0 then HeadingBase(log.geo) else log.headingStart) + log.headingLength
          + |heading| < log.geo.journal
    }

    /** Lines shorter than a page by at least four bytes always fit, wherever the log ends. */
    lemma ShortLinesFit(changed: bool, heading: seq<bv8>, validData: bool, row: seq<bv8>)
      requires Valid() && HeadingsFit(heading) && |heading| + 4 <= log.geo.page && |row| + 4 <= log.geo.page
      ensures FitsAs(changed, heading, validData, row)
    {
      hide Sound, Shows, IsField, Offset, PageEnd;
      ReadyRoom();
      ShortLineFits(log.geo, |log.flash.disk|, log.dataEnd, |heading|);
      ShortLineFits(log.geo, |log.flash.disk|, log.dataEnd, |row|);
      ShortLineFits(log.geo, |log.flash.disk|, EndAfter(log.geo, log.dataEnd, |heading|), |row|);
    }

    lemma ReadyRoom()
      requires Ready()
      ensures log.geo.page > 0 && GeoOk(log.geo, |log.flash.disk|) && log.geo.data <= log.dataEnd <= log.geo.end
    {
      JournalStart(log.flash.disk, log.geo, log.contents);
      hide GeoOk, HoldsLog, Offset;
    }

    /** What endRow adds to the session's table. */
    ghost function Closing(stamp: Field): seq<Entry>
      reads this
    {
      var (columns, values) := Closed(stamp);
      Printed(ClosedHeadingsChanged(), Keys(columns), HasData(rowData), values)
    }

    /** Prints new headings and the row's values. New headings also replace the old ones in
        the metadata page, where init will find them (z, h0: what is there). Power may fail on
        the way: the log then holds the text it had and a prefix of what is printed, and a rest
        of the old or a beginning of the new headings. */
    method EndRow(stamp: Field, ghost z: nat, ghost h0: seq<bv8>) returns (r: Status)
      requires Valid() && IsField(stamp) && stamp != [] && (rowStarted ==> Fits(stamp))
      modifies this, log, log.flash, log.cache, log.cache.cache
      ensures Valid() && !rowStarted && base == old(base) && keys0 == old(keys0) && log.geo == old(log.geo)
      ensures old(!rowStarted) ==> r == InvalidState && table == old(table) && log.contents == old(log.contents)
      ensures old(rowStarted) ==>
                r == (if log.full then NoResources else Ok) && table == old(table) + old(Closing(stamp))
                && !headingsChanged
      ensures old(rowStarted) ==>
                RowEnded(old(rowData), old(values), old(headingsChanged), stamped, timeStampHeading, stamp, rowData,
                         table[|old(table)|..])
      ensures stamped == old(stamped) && timeStampHeading == old(timeStampHeading)
      ensures old(log.full) ==> log.full
      ensures Grows(old(log.flash.images), log.flash.images, log.geo, old(log.contents), log.contents)
      ensures old(rowStarted && ClosedHeadingsChanged() && log.HeadingsAt(z, h0)) ==>
                Changed(log, |old(log.flash.images)|, z, h0, old(log.HeadingOffset()), Line(Keys(rowData)),
                        old(log.contents))
      ensures log.headingLength == old(log.headingLength)
              && (old(!(rowStarted && ClosedHeadingsChanged())) ==> log.headingStart == old(log.headingStart))
      ensures old(!(rowStarted && ClosedHeadingsChanged()) && HeadingBlock(log.flash.disk, log.geo, z, h0)) ==>
                HeadingsStay(log.flash.images, |old(log.flash.images)|, log.flash.disk, log.geo, z, h0)
      ensures old(log.Orderly()) && !log.cache.wrapped ==> log.Orderly()
      ensures old(log.cache.wrapped) ==> log.cache.wrapped
    {
      hide Sound, Shows, IsField, Ready, HasData, Keys, RowValues, Line, HeadingBlock, Closed, ClosedHeadingsChanged,
           FitsAs, Printed, Grows, HeadingsStay, Changed, RowEnded, MicroBitLog.HeadingsAt, MicroBitLog.Orderly;
      NoGrowth(log.flash.images, log.flash.disk, log.geo, log.contents, z, h0);
      if !rowStarted {
        return InvalidState;
      }
      var validData := Close(stamp);
      PrintAll(validData, z, h0);
      assert table[|old(table)|..] == Printed(old(ClosedHeadingsChanged()), Keys(rowData), validData, values);
      rowStarted := false;
      return if log.full then NoResources else Ok;
    }

    lemma Closes(stamp: Field)
      requires Valid()
      ensures var (columns, row) := Closed(stamp);
              RowEnded(rowData, values, headingsChanged, stamped, timeStampHeading, stamp, columns,
                       Printed(ClosedHeadingsChanged(), Keys(columns), HasData(rowData), row))
    {
      hide RowEnded, Printed, Keys, Represents, TableOk, HasData, Shows, Ready;
      ClosedEnds(rowData, values, headingsChanged, stamped, timeStampHeading, stamp);
    }

    /** Looks for data, and adds the timestamp if there is any. */
    method Close(stamp: Field) returns (validData: bool)
      requires Valid() && IsField(stamp) && stamp != []
      modifies this`rowData, this`headingsChanged, this`values
      ensures Valid() && validData == old(HasData(rowData)) && (validData ==> rowData != [])
      ensures (rowData, values) == old(Closed(stamp)) && headingsChanged == old(ClosedHeadingsChanged())
      ensures RowEnded(old(rowData), old(values), old(headingsChanged), stamped, timeStampHeading, stamp, rowData,
                       Printed(headingsChanged, Keys(rowData), validData, values))
    {
      hide RowEnded, Printed, Keys, Lookup, TableOk;
      Closes(stamp);
      validData := AnyValue();
      if validData && stamped {
        LoggedHasData(rowData, timeStampHeading, stamp);
        hide Valid, HasData, IsField, Logged;
        Put(timeStampHeading, stamp);
      }
    }

    method PrintAll(validData: bool, ghost z: nat, ghost h0: seq<bv8>)
      requires Valid() && (validData ==> rowData != [])
      requires FitsAs(headingsChanged, Line(Keys(rowData)), validData, Line(RowValues(rowData)))
      modifies this`headingsChanged, this`table, log, log.flash, log.cache, log.cache.cache
      ensures Valid() && (old(log.full) ==> log.full) && log.geo == old(log.geo) && !headingsChanged
      ensures table == old(table) + Printed(old(headingsChanged), Keys(rowData), validData, values)
      ensures Grows(old(log.flash.images), log.flash.images, log.geo, old(log.contents), log.contents)
      ensures old(headingsChanged && log.HeadingsAt(z, h0)) ==>
                Changed(log, |old(log.flash.images)|, z, h0, old(log.HeadingOffset()), Line(Keys(rowData)),
                        old(log.contents))
      ensures log.headingLength == old(log.headingLength)
              && (old(!headingsChanged) ==> log.headingStart == old(log.headingStart))
      ensures old(!headingsChanged && HeadingBlock(log.flash.disk, log.geo, z, h0)) ==>
                HeadingsStay(log.flash.images, |old(log.flash.images)|, log.flash.disk, log.geo, z, h0)
      ensures old(log.Orderly()) && !log.cache.wrapped ==> log.Orderly()
      ensures old(log.cache.wrapped) ==> log.cache.wrapped
    {
      hide Sound, Shows, IsField, Ready, HasData, Keys, RowValues, Line, HeadingBlock, Grows, HeadingsStay, AllRows,
           Replaced, Takes, EndAfter, MicroBitLog.Orderly;
      ghost var images, disk, text, g, at := log.flash.images, log.flash.disk, log.contents, log.geo,
          log.HeadingOffset();
      ghost var h, changed := Line(Keys(rowData)), headingsChanged;
      NoGrowth(images, disk, g, text, z, h0);
      if headingsChanged {
        PrintHeadings(z, h0);
      }
      ghost var images1, disk1, text1 := log.flash.images, log.flash.disk, log.contents;
      ghost var (z1, h1) := if changed then Replaced(z, h0, at, log.headingLength, h) else (z, h0);
      NoGrowth(images1, disk1, g, text1, z1, h1);
      if validData {
        PrintRow(z1, h1);
      }
      GrowsJoin(images, images1, log.flash.images, g, text, text1, log.contents);
      if changed {
        RowsJoin(images, images1, log.flash.images, log.flash.disk, g, z, h0, at, log.headingLength, h, text, text1,
                 log.contents);
      } else {
        StayJoin(images, images1, log.flash.images, disk1, log.flash.disk, g, z, h0);
      }
    }

    method PrintHeadings(ghost z: nat, ghost h0: seq<bv8>)
      requires Valid() && headingsChanged && HeadingsFit(Line(Keys(rowData)))
               && Takes(log.geo, log.dataEnd, |Line(Keys(rowData))|)
      modifies this`headingsChanged, this`table, log, log.flash, log.cache, log.cache.cache
      ensures Valid() && !headingsChanged && table == old(table) + [Heading(Keys(rowData))]
      ensures log.geo == old(log.geo) && (old(log.full) ==> log.full)
      ensures log.dataEnd == EndAfter(log.geo, old(log.dataEnd), |Line(Keys(rowData))|)
      ensures Grows(old(log.flash.images), log.flash.images, log.geo, old(log.contents), log.contents)
      ensures old(log.HeadingsAt(z, h0)) ==>
                Changed(log, |old(log.flash.images)|, z, h0, old(log.HeadingOffset()), Line(Keys(rowData)),
                        old(log.contents))
      ensures log.headingLength == old(log.headingLength)
      ensures old(log.Orderly()) && !log.cache.wrapped ==> log.Orderly()
      ensures old(log.cache.wrapped) ==> log.cache.wrapped
    {
      hide Sound, Shows, IsField, AllFields, Ready, Keys, Line, HeadingBlock, Grows, Changed, Takes, EndAfter,
           Clean, Storable, MicroBitLog.HeadingsAt, MicroBitLog.Orderly;
      HeadingPrinted(log.contents, base, rowData, values, table, keys0);
      LineClean(Keys(rowData));
      var h := PrintLine(Keys(rowData));
      StoreNew(h, z, h0);
      headingsChanged := false;
      table := table + [Heading(Keys(rowData))];
    }

    /** Headings go to the metadata page, and as a line into the log. */
    method StoreNew(h: seq<bv8>, ghost z: nat, ghost h0: seq<bv8>)
      requires Ready() && Storable(h) && Clean(h, false) == h && Takes(log.geo, log.dataEnd, |h|) && HeadingsFit(h)
      modifies log, log.flash, log.cache, log.cache.cache
      ensures Ready() && log.geo == old(log.geo) && (old(log.full) ==> log.full)
      ensures !log.full ==> log.contents == old(log.contents) + h
      ensures log.dataEnd == EndAfter(log.geo, old(log.dataEnd), |h|)
      ensures Grows(old(log.flash.images), log.flash.images, log.geo, old(log.contents), log.contents)
      ensures old(log.HeadingsAt(z, h0)) ==>
                Changed(log, |old(log.flash.images)|, z, h0, old(log.HeadingOffset()), h, old(log.contents))
      ensures log.headingLength == old(log.headingLength)
      ensures old(log.Orderly()) && !log.cache.wrapped ==> log.Orderly()
      ensures old(log.cache.wrapped) ==> log.cache.wrapped
    {
      hide Clean, HeadingBlock, Grows, AllHeadings, AllSurvive, HeadingsStay, Takes, EndAfter, SameAbove, AllRows,
           Replaced, Storable, MicroBitLog.Orderly, MicroBitLog.Valid;
      ghost var images, text, g, at := log.flash.images, log.contents, log.geo, log.HeadingOffset();
      log.StoreHeadings(h, z, h0);
      ghost var images1 := log.flash.images;
      SurviveGrows(images, images1, g, text);
      ghost var (z1, h1) := Replaced(z, h0, at, log.headingLength, h);
      Store(h, z1, h1);
      GrowsJoin(images, images1, log.flash.images, g, text, text, log.contents);
      NewHeadings(images, images1, log.flash.images, log.flash.disk, g, z, h0, at, log.headingLength, h, text,
                  log.contents);
    }

    method PrintRow(ghost z: nat, ghost h: seq<bv8>)
      requires Valid() && !headingsChanged && rowData != [] && Takes(log.geo, log.dataEnd, |Line(RowValues(rowData))|)
      modifies this`table, log`dataEnd, log`contents, log`journalHead, log`full, log.flash, log.cache, log.cache.cache
      ensures Valid() && table == old(table) + [Row(values)] && log.geo == old(log.geo) && (old(log.full) ==> log.full)
      ensures Grows(old(log.flash.images), log.flash.images, log.geo, old(log.contents), log.contents)
      ensures old(HeadingBlock(log.flash.disk, log.geo, z, h)) ==>
                HeadingsStay(log.flash.images, |old(log.flash.images)|, log.flash.disk, log.geo, z, h)
      ensures old(log.Orderly()) && !log.cache.wrapped ==> log.Orderly()
      ensures old(log.cache.wrapped) ==> log.cache.wrapped
    {
      hide Sound, Shows, IsField, AllFields, Ready, RowValues, Line, HeadingBlock, Grows, HeadingsStay, Takes, Clean,
           Storable, MicroBitLog.Orderly;
      RowPrinted(log.contents, base, rowData, values, table, keys0);
      LineClean(RowValues(rowData));
      var row := PrintLine(RowValues(rowData));
      Store(row, z, h);
      table := table + [Row(values)];
    }

    /** logString on a clean line. */
    method Store(line: seq<bv8>, ghost z: nat, ghost h: seq<bv8>)
      requires Ready() && Storable(line) && Clean(line, false) == line && Takes(log.geo, log.dataEnd, |line|)
      modifies log`dataEnd, log`contents, log`journalHead, log`full, log.flash, log.cache, log.cache.cache
      ensures Ready() && (old(log.full) ==> log.full) && (!log.full ==> log.contents == old(log.contents) + line)
      ensures log.dataEnd == EndAfter(log.geo, old(log.dataEnd), |line|)
      ensures Grows(old(log.flash.images), log.flash.images, log.geo, old(log.contents), log.contents)
      ensures old(HeadingBlock(log.flash.disk, log.geo, z, h)) ==>
                HeadingsStay(log.flash.images, |old(log.flash.images)|, log.flash.disk, log.geo, z, h)
      ensures old(log.Orderly()) && !log.cache.wrapped ==> log.Orderly()
      ensures old(log.cache.wrapped) ==> log.cache.wrapped
    {
      hide Clean, HeadingBlock, Grows, HeadingsStay, Kept, HoldsLog, MicroBitLog.Orderly, MicroBitLog.CleanLog,
           MicroBitLog.Coherent, NextUncached;
      ghost var images, disk, text := log.flash.images, log.flash.disk, log.contents;
      LineBytes(line);
      ReadyRoom();
      var ok := log.LogString(line);
      KeptGrows(images, disk, log.flash.images, log.flash.disk, log.geo, text, if ok then line else [], z, h);
    }

    /** The line endRow builds: fields with commas between them. */
    method PrintLine(fields: seq<Field>) returns (row: seq<bv8>)
      requires fields != []
      ensures row == Line(fields)
    {
      row := [];
      var i := 0;
      while i < |fields|
        invariant 0 <= i <= |fields|
        invariant row == if i == |fields| then Join(fields) else if i == 0 then [] else Join(fields[..i]) + [COMMA]
      {
        JoinNext(fields, i);
        row := row + fields[i];
        if i + 1 != |fields| {
          row := row + [COMMA];
        }
        i := i + 1;
      }
      row := row + [NEWLINE];
    }

    /** Forgets the values of the row, and starts a new one. */
    method ResetRow()
      requires Valid()
      modifies this`rowData, this`rowStarted, this`values
      ensures Valid() && rowStarted && values == map[] && Keys(rowData) == old(Keys(rowData))
    {
      hide Sound, Shows, Ready, IsField, Keys;
      ghost var before := rowData;
      var i := 0;
      while i < |rowData|
        invariant 0 <= i <= |rowData| == |before| && values == old(values)
        invariant forall k :: 0 <= k < i ==> rowData[k] == Column(before[k].key, [])
        invariant forall k :: i <= k < |before| ==> rowData[k] == before[k]
      {
        rowData := rowData[i := Column(rowData[i].key, [])];
        i := i + 1;
      }
      ColumnsReset(before, values, headingsChanged, table, keys0, rowData);
      values := map[];
      rowStarted := true;
    }

    /** Starts a row; a row that was still open is ended first. */
    method BeginRow(stamp: Field, ghost z: nat, ghost h0: seq<bv8>)
      requires Valid() && IsField(stamp) && stamp != [] && (rowStarted ==> Fits(stamp))
      modifies this, log, log.flash, log.cache, log.cache.cache
      ensures Valid() && rowStarted && values == map[] && base == old(base) && keys0 == old(keys0)
              && log.geo == old(log.geo)
      ensures table == old(table) + (if old(rowStarted) then old(Closing(stamp)) else [])
      ensures if old(rowStarted) then
                RowEnded(old(rowData), old(values), old(headingsChanged), stamped, timeStampHeading, stamp, rowData,
                         table[|old(table)|..])
              else Keys(rowData) == old(Keys(rowData)) && headingsChanged == old(headingsChanged)
      ensures stamped == old(stamped) && timeStampHeading == old(timeStampHeading)
      ensures old(!rowStarted) ==> log.contents == old(log.contents)
      ensures old(log.full) ==> log.full
      ensures Grows(old(log.flash.images), log.flash.images, log.geo, old(log.contents), log.contents)
      ensures old(rowStarted && ClosedHeadingsChanged() && log.HeadingsAt(z, h0)) ==>
                Changed(log, |old(log.flash.images)|, z, h0, old(log.HeadingOffset()), Line(Keys(rowData)),
                        old(log.contents))
      ensures log.headingLength == old(log.headingLength)
              && (old(!(rowStarted && ClosedHeadingsChanged())) ==> log.headingStart == old(log.headingStart))
      ensures old(!(rowStarted && ClosedHeadingsChanged()) && HeadingBlock(log.flash.disk, log.geo, z, h0)) ==>
                HeadingsStay(log.flash.images, |old(log.flash.images)|, log.flash.disk, log.geo, z, h0)
      ensures old(log.Orderly()) && !log.cache.wrapped ==> log.Orderly()
    {
      hide Sound, Shows, IsField, Ready, HasData, Keys, Line, HeadingBlock, Closed, ClosedHeadingsChanged, FitsAs,
           Printed, Grows, HeadingsStay, Changed, RowEnded, MicroBitLog.HeadingsAt, MicroBitLog.Orderly;
      NoGrowth(log.flash.images, log.flash.disk, log.geo, log.contents, z, h0);
      if rowStarted {
        var r := EndRow(stamp, z, h0);
      }
      ghost var before := rowData;
      ResetRow();
      EndedColumns(old(rowData), old(values), old(headingsChanged), stamped, timeStampHeading, stamp, before, rowData,
                   table[|old(table)|..]);
    }

    /** Logs a value under a key, both cleaned of separators; opens a row if there is none. */
    method LogData(key: seq<bv8>, value: seq<bv8>)
      requires Valid() && Storable(key) && Storable(value)
      modifies this`rowData, this`headingsChanged, this`values, this`rowStarted
      ensures Valid() && rowStarted
      ensures values == (if old(rowStarted) then old(values) else map[])[Clean(key, true) := Clean(value, true)]
      ensures CleanedTo(key, Clean(key, true), true) && CleanedTo(value, Clean(value, true), true)
      ensures exists i :: 0 <= i < |rowData| && rowData[i] == Column(Clean(key, true), Clean(value, true))
      ensures |old(rowData)| <= |rowData| <= |old(rowData)| + 1
              && forall i :: 0 <= i < |old(rowData)| ==> rowData[i].key == old(rowData)[i].key
      ensures headingsChanged == (old(headingsChanged) || |rowData| == |old(rowData)| + 1)
    {
      hide Sound, Shows, Ready, IsField, IsClean, Dirty, Logged, Storable, FindKey;
      if !rowStarted {
        ResetRow();
      }
      CleanField(key);
      CleanField(value);
      var k := CleanBuffer(key, true);
      var v := CleanBuffer(value, true);
      LoggedColumn(rowData, Clean(key, true), Clean(value, true));
      LoggedOrder(rowData, Clean(key, true), Clean(value, true));
      SameKeys(rowData, old(rowData));
      Put(if k != [] then k else key, if v != [] then v else value);
    }

    /** Loads the columns whose headings init found on flash, whatever they are: the session
        is in order if no key comes twice. */
    method LoadColumns(headers: seq<bv8>)
      requires Valid() && rowData == [] && table == [] && keys0 == [] && values == map[] && !headingsChanged
      requires Storable(headers)
      modifies this`rowData, this`keys0
      ensures Keys(rowData) == keys0 == Columns(headers) && !HasData(rowData)
      ensures AllFields(Columns(headers)) && Distinct(Columns(headers)) ==> Valid()
    {
      hide Sound, Terminated, SplitOn, IsClean, Ready, AllFields, Distinct, Shows;
      HeadersPlain(headers);
      var text, headingCount := TerminateHeadings(headers);
      rowData := ReadColumns(text, headingCount);
      keys0 := Columns(headers);
      ColumnsLoaded(rowData, keys0);
      FreshShows(log.contents, base, keys0);
    }

    /** Overwrites the separators by zero bytes, and counts them. */
    static method TerminateHeadings(headers: seq<bv8>) returns (text: seq<bv8>, headingCount: nat)
      requires 0 !in headers
      ensures text == Terminated(headers) && headingCount == |SplitOn(text, 0)| - 1
    {
      text, headingCount := headers, 0;
      var i := 0;
      while i < |headers|
        invariant 0 <= i <= |headers| == |text|
        invariant text == Terminated(headers[..i]) + headers[i..]
        invariant headingCount == |SplitOn(text[..i], 0)| - 1
      {
        TerminatedStep(headers, text, i);
        hide Terminated, SplitOn;
        if headers[i] == COMMA || headers[i] == NEWLINE {
          text := text[i := 0];
          headingCount := headingCount + 1;
        }
        i := i + 1;
      }
      assert headers[..i] == headers && text[..i] == text && headers[i..] == [];
    }

    /** Cuts the C strings off the heading text, one after the other. */
    static method ReadColumns(text: seq<bv8>, headingCount: nat) returns (columns: seq<Column>)
      requires headingCount == |SplitOn(text, 0)| - 1
      ensures |columns| == headingCount
      ensures forall k :: 0 <= k < headingCount ==> columns[k] == Column(SplitOn(text, 0)[k], [])
    {
      var i, h := 0, 0;
      ghost var keys := SplitOn(text, 0);
      columns := [];
      assert text[0..] == text;
      while h < headingCount
        invariant 0 <= h <= headingCount && |columns| == h && 0 <= i <= |text|
        invariant SplitOn(text[i..], 0) == keys[h..]
        invariant forall k :: 0 <= k < h ==> columns[k] == Column(keys[k], [])
      {
        var key := CString(text, i);
        NextPart(text, i, |key|);
        hide SplitOn;
        columns := columns + [Column(key, [])];
        i := i + |key| + 1;
        h := h + 1;
      }
    }

    /** ManagedString(&headers[i]): up to the next zero byte. */
    static method CString(text: seq<bv8>, i: nat) returns (s: seq<bv8>)
      requires i <= |text|
      ensures i + |s| <= |text| && s == text[i..i + |s|] && 0 !in s && (i + |s| < |text| ==> text[i + |s|] == 0)
    {
      var n := i;
      while n < |text| && text[n] != 0
        invariant i <= n <= |text| && 0 !in text[i..n]
      {
        n := n + 1;
      }
      s := text[i..n];
    }

    /** Formats the log and forgets the columns; the timestamp column comes back at once. */
    method Clear(header: seq<bv8>, fullErase: bool)
      requires log.cache.flash == log.flash && log.cache.blockSize == BLOCK && log.flash.Valid()
               && log.cache.cache.Length == CACHE_BLOCKS
      requires |header| == HEADER_SIZE && GeoOk(NewGeo(log.flash.blockSize, log.flash.capacity), log.flash.capacity)
      requires stamped ==> IsField(timeStampHeading)
      modifies this, log, log.flash, log.cache, log.cache.cache
      ensures Valid() && !rowStarted && table == [] && keys0 == [] && base == log.contents == [] && !log.full
      ensures stamped == old(stamped) && (if stamped then Keys(rowData) == [timeStampHeading] else rowData == [])
      ensures log.CleanLog() && log.Coherent() && log.HeadingsKnown(0, []) && (!log.cache.wrapped ==> log.Orderly())
    {
      hide GeoOk, NewGeo, HeadingBlock, IsField, MicroBitLog.HeadingsKnown, MicroBitLog.CleanLog, MicroBitLog.Coherent,
           MicroBitLog.Orderly, IsFormatted;
      log.Clear(header, fullErase);
      Forget();
    }

    /** No columns but the timestamp's, on a log that has just been cleared. */
    method Forget()
      requires Ready() && log.contents == [] && (stamped ==> IsField(timeStampHeading))
      modifies this
      ensures Valid() && !rowStarted && table == [] && keys0 == [] && base == []
      ensures stamped == old(stamped) && (if stamped then Keys(rowData) == [timeStampHeading] else rowData == [])
    {
      hide IsField, Ready, Sound, Shows, Added, Lookup, FindKey, Keys;
      NewSession();
      rowData, headingsChanged, rowStarted := [], false, false;
      values, table, keys0, base := map[], [], [], [];
      if stamped {
        FirstColumn(timeStampHeading, log.dataEnd == log.geo.data);
        SetTimeStamp(timeStampHeading, true);
      }
    }

    method AnyValue() returns (b: bool)
      ensures b == HasData(rowData)
    {
      var i := 0;
      while i < |rowData|
        invariant 0 <= i <= |rowData| && forall k :: 0 <= k < i ==> rowData[k].value == []
      {
        if rowData[i].value != [] {
          return true;
        }
        i := i + 1;
      }
      return false;
    }

    method Put(key: Field, value: Field)
      requires Valid() && IsField(key) && IsField(value)
      modifies this`rowData, this`headingsChanged, this`values
      ensures Valid() && rowData == Logged(old(rowData), key, value) && values == old(values)[key := value]
      ensures headingsChanged == (old(headingsChanged) || FindKey(old(rowData), key) < 0)
    {
      hide Sound, Shows, IsField, Ready, FindKey, Logged, Added;
      LoggedAs(rowData, key, value);
      var i := FindColumn(key);
      if i >= 0 {
        ColumnSet(rowData, values, headingsChanged, table, keys0, key, value);
        rowData := rowData[i := rowData[i].(value := value)];
        values := values[key := value];
      } else {
        AddHeading(key, value, false);
      }
    }
  }

  /** The log comes up on a disk, with what is there. */
  method StartLog(blockSize: nat, blockCount: nat, disk: seq<bv8>, header: seq<bv8>, ghost g: Geo,
                  ghost text: seq<bv8>, ghost z: nat, ghost h: seq<bv8>) returns (log: MicroBitLog, headers: seq<bv8>)
    requires 0 < blockSize && Words(blockSize) && |disk| == blockSize * blockCount
             && |disk| + blockSize <= USB.WORD_RANGE
    requires |header| == HEADER_SIZE && GeoOk(NewGeo(blockSize, |disk|), |disk|)
    requires Startable(disk, blockSize, g, text, z, h)
    ensures fresh(log) && fresh(log.flash) && fresh(log.cache) && fresh(log.cache.cache)
    ensures log.Valid() && log.Coherent() && Storable(headers)
    ensures Present(disk, blockSize) ==>
              && log.flash.disk == disk && log.geo == g && log.contents == text && headers == h
              && log.HeadingsKnown(z, h) && (CleanBefore(disk, g, |text|) && !log.cache.wrapped ==> log.Orderly())
    ensures !Present(disk, blockSize) ==>
              && log.geo == NewGeo(blockSize, |disk|) && log.contents == [] && headers == []
              && log.HeadingsKnown(0, []) && (!log.cache.wrapped ==> log.Orderly())
  {
    hide GeoOk, NewGeo, HoldsLog, HeadingBlock, Present, CleanBefore, MicroBitLog.Orderly, MicroBitLog.Valid,
         MicroBitLog.Coherent, MicroBitLog.HeadingsKnown, StartAddress, ReadGeo;
    WholeBlocks(blockSize, |disk|);
    HeadersStorable(disk, g, z, h);
    var flash := new USB.UsbFlash(blockSize, blockCount, disk);
    log := new MicroBitLog(flash);
    headers := log.Init(header, g, text, z, h);
  }

  /** The session begins with the text and the columns that are there. */
  method PowerUp(blockSize: nat, blockCount: nat, disk: seq<bv8>, header: seq<bv8>, ghost g: Geo,
                 ghost text: seq<bv8>, ghost z: nat, ghost h: seq<bv8>) returns (rows: RowLog)
    requires 0 < blockSize && Words(blockSize) && |disk| == blockSize * blockCount
             && |disk| + blockSize <= USB.WORD_RANGE
    requires |header| == HEADER_SIZE && GeoOk(NewGeo(blockSize, |disk|), |disk|)
    requires Startable(disk, blockSize, g, text, z, h)
    ensures fresh(rows) && fresh(rows.log) && rows.log.Valid() && rows.log.Coherent()
    ensures Present(disk, blockSize) ==>
              && rows.log.flash.disk == disk && rows.log.geo == g && rows.log.contents == rows.base == text
              && Keys(rows.rowData) == rows.keys0 == Columns(h) && rows.log.HeadingsKnown(z, h)
              && (CleanBefore(disk, g, |text|) && !rows.log.cache.wrapped ==> rows.log.Orderly())
    ensures !Present(disk, blockSize) ==>
              && rows.log.geo == NewGeo(blockSize, |disk|) && rows.log.contents == rows.base == []
              && Keys(rows.rowData) == rows.keys0 == [] && rows.log.HeadingsKnown(0, [])
              && (!rows.log.cache.wrapped ==> rows.log.Orderly())
    ensures AllFields(rows.keys0) && Distinct(rows.keys0) ==> rows.Valid()
  {
    hide GeoOk, NewGeo, HoldsLog, HeadingBlock, Columns, Present, CleanBefore, MicroBitLog.Orderly, Storable,
         MicroBitLog.Coherent, StartAddress, ReadGeo, AllFields, Distinct, Keys, MicroBitLog.Valid;
    var log, headers := StartLog(blockSize, blockCount, disk, header, g, text, z, h);
    rows := new RowLog(log);
    NoColumns();
    rows.LoadColumns(headers);
  }

  lemma WholeBlocks(page: nat, capacity: nat)
    requires page > 0 && GeoOk(NewGeo(page, capacity), capacity)
    ensures Offset(capacity, BLOCK) == 0
  {
    FormatBlocks(NewGeo(page, capacity), capacity);
  }

  lemma NoColumns()
    ensures Columns([]) == []
  {}

  lemma HeadersStorable(disk: seq<bv8>, g: Geo, z: nat, h: seq<bv8>)
    ensures HeadingBlock(disk, g, z, h) ==> Storable(h)
  {}

  /** The log has grown from text to text', and power may have failed on the way: each image
      holds text and a prefix of what was added. */
  ghost predicate Grows(images: seq<seq<bv8>>, images': seq<seq<bv8>>, g: Geo, text: seq<bv8>, text': seq<bv8>)
  {
    images <= images' && text <= text' && AllSurvive(images', |images|, g, text, text'[|text|..])
  }

  /** The headings on flash stay as they are, in every image as well. */
  ghost predicate HeadingsStay(images: seq<seq<bv8>>, lo: nat, disk: seq<bv8>, g: Geo, z: nat, h: seq<bv8>)
  {
    HeadingBlock(disk, g, z, h) && forall k :: lo <= k < |images| ==> HeadingBlock(images[k], g, z, h)
  }

  lemma NoGrowth(images: seq<seq<bv8>>, disk: seq<bv8>, g: Geo, text: seq<bv8>, z: nat, h: seq<bv8>)
    ensures Grows(images, images, g, text, text)
    ensures HeadingBlock(disk, g, z, h) ==> HeadingsStay(images, |images|, disk, g, z, h)
  {}

  lemma SurviveGrows(images: seq<seq<bv8>>, images': seq<seq<bv8>>, g: Geo, text: seq<bv8>)
    requires images <= images' && AllSurvive(images', |images|, g, text, [])
    ensures Grows(images, images', g, text, text)
  {
    assert text[|text|..] == [];
    hide AllSurvive;
  }

  lemma GrowsJoin(images: seq<seq<bv8>>, images1: seq<seq<bv8>>, images2: seq<seq<bv8>>, g: Geo, text: seq<bv8>,
                  text1: seq<bv8>, text2: seq<bv8>)
    requires Grows(images, images1, g, text, text1) && Grows(images1, images2, g, text1, text2)
    ensures Grows(images, images2, g, text, text2) && images <= images1 && images1 <= images2
  {
    hide HoldsLog;
    forall k | |images| <= k < |images2| ensures Survives(images2[k], g, text, text2[|text|..]) {
      if k < |images1| {
        assert images2[k] == images1[k];
        var n :| 0 <= n <= |text1| - |text| && HoldsLog(images1[k], g, text + text1[|text|..][..n]);
        assert text1[|text|..][..n] == text2[|text|..][..n];
      } else {
        var n :| 0 <= n <= |text2| - |text1| && HoldsLog(images2[k], g, text1 + text2[|text1|..][..n]);
        assert text1 + text2[|text1|..][..n] == text + text2[|text|..][..|text1| - |text| + n];
      }
    }
  }

  /** What logString keeps, as growth of the text under unchanged headings. */
  lemma KeptGrows(images: seq<seq<bv8>>, disk: seq<bv8>, images': seq<seq<bv8>>, disk': seq<bv8>, g: Geo,
                  text: seq<bv8>, line: seq<bv8>,
                  z: nat, h: seq<bv8>)
    requires Kept(images, disk, images', disk', g, text, line)
    ensures Grows(images, images', g, text, text + line)
    ensures HeadingBlock(disk, g, z, h) ==> HeadingsStay(images', |images|, disk', g, z, h)
  {
    assert (text + line)[|text|..] == line;
    hide AllSurvive, HeadingBlock, SameBelow;
    if HeadingBlock(disk, g, z, h) {
      HeadingFrame(disk, disk', g, z, h);
      HeadingsSurvive(images', |images|, disk, g, z, h);
    }
  }

  /** Whenever power fails while a row is printed under unchanged headings, the next init
      finds the log, its headings, and the text up to some point in the row. */
  lemma RestartAfterRow(images: seq<seq<bv8>>, images': seq<seq<bv8>>, disk': seq<bv8>, g: Geo, text: seq<bv8>,
                        text': seq<bv8>, z: nat, h: seq<bv8>, k: nat)
    returns (n: nat)
    requires Grows(images, images', g, text, text') && HeadingsStay(images', |images|, disk', g, z, h)
             && |images| <= k < |images'|
    requires g.page > 0 && g.start == StartAddress(g.page) && |images'[k]| < 0x1_0000_0000
    ensures |text| <= n <= |text'| && Startable(images'[k], g.page, g, text'[..n], z, h)
            && Present(images'[k], g.page)
  {
    hide HoldsLog, HeadingBlock, StartAddress, ReadGeo, Present;
    assert Survives(images'[k], g, text, text'[|text|..]);
    n := FoundText(images'[k], g, text, text');
  }

  lemma FoundText(img: seq<bv8>, g: Geo, text: seq<bv8>, text': seq<bv8>) returns (n: nat)
    requires text <= text' && Survives(img, g, text, text'[|text|..])
    requires g.page > 0 && g.start == StartAddress(g.page) && |img| < 0x1_0000_0000
    ensures StartAddress(g.page) + META_SIZE <= |img| && Present(img, g.page) && ReadGeo(img, g.page) == g
    ensures |text| <= n <= |text'| && HoldsLog(img, g, text'[..n])
  {
    hide HoldsLog, StartAddress, ReadGeo, Present;
    PowerUpFinds(img, g, text, text'[|text|..]);
    var m :| 0 <= m <= |text'| - |text| && HoldsLog(img, g, text + text'[|text|..][..m]);
    n := |text| + m;
    assert text + text'[|text|..][..m] == text'[..n];
  }

  /** The same if the row came with new headings: the next init finds a rest of the old or a
      beginning of the new ones; and the new ones, if it finds any of the lines printed. */
  lemma RestartAfterChange(img: seq<bv8>, g: Geo, z: nat, h0: seq<bv8>, at: int, known: nat, h: seq<bv8>,
                           text: seq<bv8>, text': seq<bv8>)
    returns (n: nat, z': nat, h': seq<bv8>)
    requires text <= text' && RowImage(img, g, z, h0, at, known, h, text, text')
    requires g.page > 0 && g.start == StartAddress(g.page) && |img| < 0x1_0000_0000
    ensures |text| <= n <= |text'| && Startable(img, g.page, g, text'[..n], z', h') && Present(img, g.page)
    ensures HeadingTorn(img, g, z, h0, at, known, h) || (z', h') == Replaced(z, h0, at, known, h)
    ensures n > |text| ==> (z', h') == Replaced(z, h0, at, known, h)
  {
    hide HoldsLog, HeadingBlock, StartAddress, ReadGeo, Present, Replaced, Overprinted;
    var (z1, h1) := Replaced(z, h0, at, known, h);
    if HeadingBlock(img, g, z1, h1) && Survives(img, g, text, text'[|text|..]) {
      n := FoundText(img, g, text, text');
      z', h' := z1, h1;
    } else {
      assert text + text'[|text|..][..0] == text == text'[..|text|];
      PowerUpFinds(img, g, text, text'[|text|..]);
      n := |text|;
      if j :| 0 <= j <= known && HeadingBlock(img, g, z + j, Rest(h0, j)) {
        z', h' := z + j, Rest(h0, j);
      } else {
        var j :| 0 <= j <= |h| && HeadingBlock(img, g, z + known, Overprinted(Rest(h0, known), h[..j]));
        z', h' := z + known, Overprinted(Rest(h0, known), h[..j]);
      }
    }
  }

  /** A disk on which power failed while a row with new headings h was printed behind text:
      either the headings were being stored, and the text is still the old one; or they are
      stored, as far as flash took them, and lines are being printed. */
  ghost predicate RowImage(img: seq<bv8>, g: Geo, z: nat, h0: seq<bv8>, at: int, known: nat, h: seq<bv8>,
                           text: seq<bv8>, text': seq<bv8>)
    requires |text| <= |text'|
  {
    var (z1, h1) := Replaced(z, h0, at, known, h);
    || (HoldsLog(img, g, text) && HeadingTorn(img, g, z, h0, at, known, h))
    || (HeadingBlock(img, g, z1, h1) && Survives(img, g, text, text'[|text|..]))
  }

  ghost predicate AllRows(images: seq<seq<bv8>>, lo: nat, g: Geo, z: nat, h0: seq<bv8>, at: int, known: nat,
                          h: seq<bv8>, text: seq<bv8>, text': seq<bv8>)
  {
    |text| <= |text'| && forall k :: lo <= k < |images| ==> RowImage(images[k], g, z, h0, at, known, h, text, text')
  }

  /** A row was printed behind text, and its headings h took the place of h0. */
  ghost predicate Changed(log: MicroBitLog, lo: nat, z: nat, h0: seq<bv8>, at: int, h: seq<bv8>, text: seq<bv8>)
    reads log, log.flash
  {
    var (z1, h1) := Replaced(z, h0, at, log.headingLength, h);
    && log.HeadingsAt(z1, h1)
    && AllRows(log.flash.images, lo, log.geo, z, h0, at, log.headingLength, h, text, log.contents)
  }

  /** The headings init finds are not those of the last heading line in the text exactly if the
      new heading line is not complete and the headings are no longer the old ones. The rows of
      the next session then do not match the heading line above them. */
  lemma HeadingsAhead(img: seq<bv8>, g: Geo, z: nat, h0: seq<bv8>, at: int, known: nat, h: seq<bv8>,
                      text: seq<bv8>, text': seq<bv8>, found: seq<bv8>, z': nat, h': seq<bv8>)
    requires text <= text' && RowImage(img, g, z, h0, at, known, h, text, text')
             && Replaced(z, h0, at, known, h).1 == h != []
    requires HoldsLog(img, g, found) && HeadingBlock(img, g, z', h')
    ensures text <= found <= text'
    ensures var latest := if |found| - |text| >= |h| then h else h0;
            h' != latest <==> |found| - |text| < |h| && h' != h0
  {
    hide HoldsLog, HeadingBlock, HeadingTorn, Replaced;
    var (z1, h1) := Replaced(z, h0, at, known, h);
    if HeadingBlock(img, g, z1, h1) && Survives(img, g, text, text'[|text|..]) {
      var n :| 0 <= n <= |text'| - |text| && HoldsLog(img, g, text + text'[|text|..][..n]);
      TextUnique(img, g, found, text + text'[|text|..][..n]);
      HeadingsUnique(img, g, z1, h1, z', h');
    } else {
      TextUnique(img, g, found, text);
    }
  }

  lemma TextUnique(img: seq<bv8>, g: Geo, text: seq<bv8>, text': seq<bv8>)
    requires HoldsLog(img, g, text) && HoldsLog(img, g, text')
    ensures text == text'
  {
    RecoveredWhole(img, g, text);
    RecoveredWhole(img, g, text');
  }

  lemma NewHeadings(images: seq<seq<bv8>>, images1: seq<seq<bv8>>, images2: seq<seq<bv8>>, disk2: seq<bv8>, g: Geo,
                    z: nat, h0: seq<bv8>, at: int, known: nat, h: seq<bv8>, text: seq<bv8>, text': seq<bv8>)
    requires images <= images1 && AllSurvive(images1, |images|, g, text, []) && Grows(images1, images2, g, text, text')
    ensures var (z1, h1) := Replaced(z, h0, at, known, h);
            AllHeadings(images1, |images|, g, z, h0, at, known, h) && HeadingsStay(images2, |images1|, disk2, g, z1, h1)
            ==> AllRows(images2, |images|, g, z, h0, at, known, h, text, text') && HeadingBlock(disk2, g, z1, h1)
  {
    hide HeadingBlock, HoldsLog, HeadingTorn, Replaced;
    var (z1, h1) := Replaced(z, h0, at, known, h);
    if AllHeadings(images1, |images|, g, z, h0, at, known, h) && HeadingsStay(images2, |images1|, disk2, g, z1, h1) {
      forall k | |images| <= k < |images2| ensures RowImage(images2[k], g, z, h0, at, known, h, text, text') {
        if k < |images1| {
          assert images2[k] == images1[k] && Survives(images1[k], g, text, []);
          assert text + [][..0] == text;
        }
      }
    }
  }

  lemma RowsJoin(images: seq<seq<bv8>>, images1: seq<seq<bv8>>, images2: seq<seq<bv8>>, disk2: seq<bv8>, g: Geo,
                 z: nat, h0: seq<bv8>, at: int, known: nat, h: seq<bv8>, text: seq<bv8>, text1: seq<bv8>,
                 text2: seq<bv8>)
    requires images <= images1 && Grows(images1, images2, g, text1, text2)
    requires Grows(images, images2, g, text, text2)
    ensures var (z1, h1) := Replaced(z, h0, at, known, h);
            AllRows(images1, |images|, g, z, h0, at, known, h, text, text1)
            && HeadingsStay(images2, |images1|, disk2, g, z1, h1) ==>
              AllRows(images2, |images|, g, z, h0, at, known, h, text, text2) && HeadingBlock(disk2, g, z1, h1)
  {
    hide HeadingBlock, HoldsLog, HeadingTorn, Replaced, Survives;
    var (z1, h1) := Replaced(z, h0, at, known, h);
    if AllRows(images1, |images|, g, z, h0, at, known, h, text, text1)
        && HeadingsStay(images2, |images1|, disk2, g, z1, h1) {
      forall k | |images| <= k < |images2| ensures RowImage(images2[k], g, z, h0, at, known, h, text, text2) {
        assert Survives(images2[k], g, text, text2[|text|..]);
        if k < |images1| {
          assert images2[k] == images1[k] && RowImage(images1[k], g, z, h0, at, known, h, text, text1);
        }
      }
    }
  }

  lemma StayJoin(images: seq<seq<bv8>>, images1: seq<seq<bv8>>, images2: seq<seq<bv8>>, disk1: seq<bv8>,
                 disk2: seq<bv8>, g: Geo, z: nat, h: seq<bv8>)
    requires images <= images1 <= images2
    ensures HeadingsStay(images1, |images|, disk1, g, z, h) && HeadingsStay(images2, |images1|, disk2, g, z, h) ==>
              HeadingsStay(images2, |images|, disk2, g, z, h)
  {
    hide HeadingBlock;
    if HeadingsStay(images1, |images|, disk1, g, z, h) && HeadingsStay(images2, |images1|, disk2, g, z, h) {
      forall k | |images| <= k < |images2| ensures HeadingBlock(images2[k], g, z, h) {
        if k < |images1| {
          assert images2[k] == images1[k];
        }
      }
    }
  }

  lemma LineBytes(line: seq<bv8>)
    requires Storable(line)
    ensures forall i :: 0 <= i < |line| ==> line[i] != 0 && line[i] != BLANK
  {}

  lemma LoggedAs(rowData: seq<Column>, key: Field, value: Field)
    ensures var i := FindKey(rowData, key);
            && i < |rowData|
            && Logged(rowData, key, value) == if i >= 0 then rowData[i := rowData[i].(value := value)]
            else Added(rowData, key, value, false)
  {
    hide FindKey;
  }

  lemma LoggedHasData(rowData: seq<Column>, key: Field, value: Field)
    requires HasData(rowData) && value != []
    ensures HasData(Logged(rowData, key, value)) && Logged(rowData, key, value) != []
  {
    var i :| 0 <= i < |rowData| && rowData[i].value != [];
    assert Logged(rowData, key, value)[i].value != [];
  }

  lemma LoggedColumn(rowData: seq<Column>, key: Field, value: Field)
    ensures exists i :: 0 <= i < |Logged(rowData, key, value)| && Logged(rowData, key, value)[i] == Column(key, value)
  {
    var r, i := Logged(rowData, key, value), FindKey(rowData, key);
    assert r[if i >= 0 then i else |rowData|] == Column(key, value);
  }

  /** No column moves, and a new one goes behind the others. */
  lemma LoggedOrder(rowData: seq<Column>, key: Field, value: Field)
    ensures var r := Logged(rowData, key, value);
            && |r| == |rowData| + (if FindKey(rowData, key) < 0 then 1 else 0)
            && forall i :: 0 <= i < |rowData| ==> r[i].key == rowData[i].key
  {
    hide FindKey;
  }

  lemma SameKeys(rowData: seq<Column>, rowData0: seq<Column>)
    ensures Keys(rowData) == Keys(rowData0) ==>
              |rowData| == |rowData0| && forall i :: 0 <= i < |rowData| ==> rowData[i].key == rowData0[i].key
  {
    assert forall i :: 0 <= i < |rowData| ==> Keys(rowData)[i] == rowData[i].key;
    assert forall i :: 0 <= i < |rowData0| ==> Keys(rowData0)[i] == rowData0[i].key;
  }

  lemma JoinNext(fields: seq<Field>, i: nat)
    requires i < |fields|
    ensures Join(fields[..i + 1]) == (if i == 0 then [] else Join(fields[..i]) + [COMMA]) + fields[i]
    ensures fields[..|fields|] == fields
  {
    assert fields[..i + 1][..i] == fields[..i];
  }

  lemma CleanField(s: seq<bv8>)
    requires Storable(s)
    ensures IsField(Clean(s, true)) && (IsClean(s, true) ==> Clean(s, true) == s)
  {
    CleanIsClean(s, true);
  }

  lemma TerminatedStep(headers: seq<bv8>, text: seq<bv8>, i: nat)
    requires i < |headers| == |text| && text == Terminated(headers[..i]) + headers[i..] && 0 !in headers
    ensures var c := headers[i]; var text' := if c == COMMA || c == NEWLINE then text[i := 0] else text;
            && text' == Terminated(headers[..i + 1]) + headers[i + 1..]
            && |SplitOn(text'[..i + 1], 0)| == |SplitOn(text[..i], 0)| + if c == COMMA || c == NEWLINE then 1 else 0
  {
    var c := headers[i];
    var text' := if c == COMMA || c == NEWLINE then text[i := 0] else text;
    assert Terminated(headers[..i + 1]) == Terminated(headers[..i]) + [text'[i]];
    assert text'[..i + 1] == text[..i] + [text'[i]];
    SplitAppend(text[..i], [text'[i]], 0);
    var last := [text'[i]];
    assert last[1..] == [] && SplitOn([], 0) == [[]] && headers[i] in headers;
    assert SplitOn(last, 0) == Push(text'[i], 0, [[]]);
  }

  /** The first part of what is left, and what follows it. */
  lemma NextPart(text: seq<bv8>, i: nat, n: nat)
    requires i + n <= |text| && 0 !in text[i..i + n] && (i + n < |text| ==> text[i + n] == 0)
    ensures SplitOn(text[i..], 0)[0] == text[i..i + n]
    ensures i + n < |text| ==> SplitOn(text[i + n + 1..], 0) == SplitOn(text[i..], 0)[1..]
    ensures i + n == |text| ==> |SplitOn(text[i..], 0)| == 1
  {
    var part := text[i..i + n];
    SplitNothing(part, 0);
    if i + n < |text| {
      var rest := text[i + n..];
      assert rest[1..] == text[i + n + 1..] && rest[0] == 0;
      SplitAppend(part, rest, 0);
      assert text[i..] == part + rest;
      assert part + [] == part;
    } else {
      assert text[i..] == part;
    }
  }

  lemma LoggedFound(rowData: seq<Column>, values: map<Field, Field>, headingsChanged: bool, table: seq<Entry>,
                    keys0: seq<Field>, key: Field)
    requires Sound(rowData, values, headingsChanged, table, keys0)
    ensures key in values ==> FindKey(rowData, key) >= 0
  {
    hide IsField, TableOk, HeadingsAfter, FindKey;
  }

  lemma HeadersPlain(headers: seq<bv8>)
    requires Storable(headers)
    ensures 0 !in headers
  {}

  /** Before anything is printed, the headings found do not matter to what the log shows. */
  lemma FreshShows(contents: seq<bv8>, base: seq<bv8>, keys: seq<Field>)
    ensures Shows(contents, base, [], []) ==> Shows(contents, base, [], keys)
  {}

  lemma NewSession()
    ensures Sound([], map[], false, [], []) && Shows([], [], [], [])
  {}

  lemma AddedIs(rowData: seq<Column>, key: Field, value: Field, head: bool)
    ensures FindKey(rowData, key) >= 0 <==> exists i :: 0 <= i < |rowData| && rowData[i].key == key
    ensures Added(rowData, key, value, head)
            == if head then [Column(key, value)] + rowData else rowData + [Column(key, value)]
  {
    hide FindKey;
  }

  lemma FirstColumn(key: Field, head: bool)
    ensures FindKey([], key) < 0 && Keys(Added([], key, [], head)) == [key]
  {}

  lemma EmptyField()
    ensures IsField([])
  {}

  lemma AddedFound(rowData: seq<Column>, key: Field, head: bool)
    ensures FindKey(Added(rowData, key, [], head), key) >= 0
  {
    var r := Added(rowData, key, [], head);
    assert r[if head then 0 else |rowData|].key == key;
  }

  lemma NotLogged(before: seq<Column>, values: map<Field, Field>, values0: map<Field, Field>, key: Field)
    requires values == values0 || (values == values0[key := []] && (key in values0 ==> values0[key] == []))
    ensures forall k :: Lookup(values, k) == Lookup(values0, k)
  {}

  lemma LoggedKeys(rowData: seq<Column>, key: Field, value: Field)
    ensures FindKey(rowData, key) >= 0 ==> Keys(Logged(rowData, key, value)) == Keys(rowData)
  {}

  lemma {:induction false} FirstKey(rowData: seq<Column>, key: Field, i: nat)
    requires i < |rowData| && rowData[i].key == key && forall k :: 0 <= k < i ==> rowData[k].key != key
    ensures FindKey(rowData, key) == i
  {
    var n := |rowData| - 1;
    if i < n {
      FirstKey(rowData[..n], key, i);
    }
  }

  function Added(rowData: seq<Column>, key: Field, value: Field, head: bool): seq<Column>
  {
    if head then [Column(key, value)] + rowData else rowData + [Column(key, value)]
  }

  lemma AddedRepresents(rowData: seq<Column>, values: map<Field, Field>, key: Field, value: Field, head: bool)
    requires Represents(rowData, values) && IsField(key) && IsField(value) && FindKey(rowData, key) < 0
    ensures Represents(Added(rowData, key, value, head), values[key := value])
  {
    if head {
      var r := Added(rowData, key, value, head);
      AddedKeys(rowData, key, value);
      forall k {:trigger FindKey(r, k)} | k in values[key := value] ensures FindKey(r, k) >= 0 {
        FrontFind(rowData, key, value, k);
      }
      hide IsField, FindKey;
    } else {
      LoggedRepresents(rowData, values, key, value);
    }
  }

  lemma FrontFind(rowData: seq<Column>, key: Field, value: Field, k: Field)
    requires FindKey(rowData, k) >= 0 || k == key
    ensures FindKey([Column(key, value)] + rowData, k) >= 0
  {
    var r := [Column(key, value)] + rowData;
    if k == key {
      assert r[0].key == k;
    } else {
      assert r[FindKey(rowData, k) + 1].key == k;
    }
  }

  lemma AddedKeys(rowData: seq<Column>, key: Field, value: Field)
    requires Distinct(Keys(rowData)) && FindKey(rowData, key) < 0
    ensures Distinct(Keys([Column(key, value)] + rowData))
  {
    var r := [Column(key, value)] + rowData;
    assert Keys(r) == [key] + Keys(rowData);
    assert forall j :: 0 <= j < |rowData| ==> Keys(rowData)[j] == rowData[j].key;
  }

  // ----- the headings of the next session

  /** Whole headings give back their columns. */
  lemma ColumnsStored(keys: seq<Field>)
    requires keys != [] && AllFields(keys)
    ensures Columns(Line(keys)) == keys && Storable(Line(keys))
  {
    TerminatedParts(keys);
    LineClean(keys);
    hide SplitOn, Terminated, Line;
    assert (keys + [[]])[..|keys|] == keys;
  }

  /** A rest of torn headings may have the same key twice. */
  lemma SameKeyTwice()
    ensures var keys: seq<Field> := [[0x61, 0x62], [0x62]];
            Distinct(keys) && Columns(Line(keys)[1..]) == [[0x62], [0x62]]
  {
    var keys: seq<Field> := [[0x61, 0x62], [0x62]];
    assert keys[..1] == [[0x61, 0x62]] && Join(keys[..1]) == [0x61, 0x62];
    assert Line(keys)[1..] == [0x62, COMMA, 0x62, NEWLINE];
    assert Terminated(Line(keys)[1..]) == [0x62, 0, 0x62, 0];
    var b: seq<bv8> := [0x62];
    SplitNothing(b, 0);
    SplitSeparator(b, 0, b);
    SplitSeparator(b + [0] + b, 0, []);
    assert [0x62, 0, 0x62, 0] == b + [0] + b + [0] + [];
  }

  lemma JoinMore(keys: seq<Field>, more: seq<Field>)
    requires keys != [] && more != []
    ensures Line(keys + more) == Join(keys) + [COMMA] + Line(more)
  {
    JoinConcat(keys, more);
    assert Join(keys) + [COMMA] + Join(more) + [NEWLINE] == Join(keys) + [COMMA] + (Join(more) + [NEWLINE]);
  }

  lemma {:induction false} JoinConcat(keys: seq<Field>, more: seq<Field>)
    requires keys != [] && more != []
    ensures Join(keys + more) == Join(keys) + [COMMA] + Join(more)
  {
    var n, all := |more| - 1, keys + more;
    assert all[..|all| - 1] == keys + more[..n] && all[|all| - 1] == more[n];
    if n > 0 {
      JoinConcat(keys, more[..n]);
    } else {
      assert keys + more[..n] == keys;
    }
  }

  /** After clear, columns that are added once a row was printed are not stored: flash refuses
      the comma over the newline. The next session finds the first columns only. */
  lemma LaterColumnsLost(keys: seq<Field>, more: seq<Field>)
    requires keys != [] && more != []
    ensures Replaced(0, [], 0, 0, Line(keys)) == (0, Line(keys))
    ensures Replaced(0, Line(keys), 0, 0, Line(keys + more)) == (0, Line(keys))
  {
    JoinMore(keys, more);
    var a, b, n := Line(keys), Line(keys + more), |Join(keys)|;
    assert a[n] == NEWLINE && b[n] == COMMA && !Clears(a[n], b[n]);
    assert !PrintsOver(a, b);
  }

  /** After init has found some columns, columns added are stored the first time. The second
      time the headings of the first change are zeroed only as far as those init found were
      long: what remains are the columns of the first change alone, and flash takes the new
      headings if and only if they clear bits of these only. */
  lemma ThirdColumns(keys: seq<Field>, more: seq<Field>, h: seq<bv8>, z: nat)
    requires keys != [] && more != []
    ensures var n := |Line(keys)|; var h1 := Line(keys + more);
            && Replaced(z, Line(keys), z, n, h1) == (z + n, h1)
            && Replaced(z + n, h1, z + n, n, h)
               == (z + n + n, if PrintsOver(Line(more), h) then h + Rest(Line(more), |h|) else Line(more))
  {
    JoinMore(keys, more);
    var n, h1 := |Line(keys)|, Line(keys + more);
    assert h1[n..] == Line(more);
  }

  /** Columns a; then a and b; then a, b and c: the next session finds b only. */
  lemma OneColumnOfThree(z: nat)
    ensures var a: seq<Field> := [[0x61]]; var ab: seq<Field> := [[0x61], [0x62]];
            var abc: seq<Field> := [[0x61], [0x62], [0x63]]; var n := |Line(a)|;
            && Replaced(z, Line(a), z, n, Line(ab)) == (z + n, Line(ab))
            && Replaced(z + n, Line(ab), z + n, n, Line(abc)).1 == Line([[0x62]])
            && Columns(Line([[0x62]])) == [[0x62]]
  {
    var a, b, ab: seq<Field> := [[0x61]], [[0x62]], [[0x61], [0x62]];
    var abc: seq<Field> := [[0x61], [0x62], [0x63]];
    assert a + b == ab && abc == ab + [[0x63]];
    ThirdColumns(a, b, Line(abc), z);
    JoinMore(a, b + [[0x63]]);
    assert a + (b + [[0x63]]) == abc;
    assert Line(b)[0] == 0x62 && Line(abc)[0] == 0x61 && !Clears(0x62, 0x61);
    assert !PrintsOver(Line(b), Line(abc));
    SplitSeparator([0x62], 0, []);
    SplitNothing([0x62], 0);
    assert Terminated(Line(b)) == [0x62] + [0] + [];
  }
}
