/** The statistics a source declares, and the bridge they cross to become those of a scan.
 */
module Sources {
  import opened Common
  import opened ZoneMaps

  // --- What a source declares ------------------------------------------------------

  /** The statistics of a source. Unless `nanAware`, its bounds leave NaN out. */
  datatype Source = Source(
    rows: Option<nat>, exactRows: bool, columns: map<string, ColumnStat>, nanAware: bool)

  /** The sources of the tables, for the columns read off them. */
  type Catalog = (string, seq<string>) -> Source

  const UNKNOWN_ROWS: nat := 1_000_000_000_000

  /** The statistics as declared, with some of the columns changed. */
  function Declared(s: Source, columns: map<string, ColumnStat>): RelStats {
    RelStats(if s.rows.Some? then s.rows.value else UNKNOWN_ROWS, s.rows.Some? && s.exactRows, columns)
  }

  function Cleared(c: ColumnStat): ColumnStat {
    if c.max.Some? && KindOf(c.max.value) == DoubleKind then c.(max := None) else c
  }

  /** `_columns_for_reasoning`. */
  function ForReasoning(s: Source): map<string, ColumnStat> {
    if s.nanAware then s.columns else map name | name in s.columns :: Cleared(s.columns[name])
  }

  /** `to_relstats`. */
  function ToRelStats(s: Source): RelStats {
    Declared(s, ForReasoning(s))
  }

  /** The part of the statistics that speaks of a value: a NaN is above the bounds of a source
      that leaves it out. */
  function Bounding(s: Source, c: ColumnStat, x: Value): ColumnStat {
    if x == NaN && !s.nanAware then c.(max := None) else c
  }

  /** A truthful declaration. NaN is never declared as a minimum. */
  ghost predicate Declares(s: Source, rows: seq<Row>) {
    && (s.rows.Some? && s.exactRows ==> s.rows.value == |rows|)
    && forall name | name in s.columns :: DeclaresColumn(s, s.columns[name], rows, name)
  }

  ghost predicate DeclaresColumn(s: Source, c: ColumnStat, rows: seq<Row>, name: string) {
    && c.min != Some(NaN) && (c.exact ==> c.nullsExact)
    && (forall i | 0 <= i < |rows| && Cell(rows[i], name).Some? ::
          var x := Cell(rows[i], name).value; Fits(Bounding(s, c, x), x))
    && CountsRight(Declared(s, s.columns), c, rows, name)
  }

  /** The bounds, where there are any, are of the kind. */
  predicate StatOfKind(c: ColumnStat, kind: Kind) {
    OfKind(c.min, kind) && OfKind(c.max, kind)
  }

  // --- The bridge ------------------------------------------------------------------

  /** NaN is not above the maximum. */
  predicate CoversNaN(c: ColumnStat) {
    c.max.None? || !Less(c.max.value, NaN)
  }

  /** A column with its maximum as declared or dropped. */
  ghost predicate MaxDropped(c: ColumnStat, c': ColumnStat) {
    c' == c || c' == c.(max := None)
  }

  /** Whichever maxima are dropped, what is left of a truthful declaration describes the rows
      if and only if NaN is above no maximum that was kept. */
  lemma DeclarationExactly(s: Source, rows: seq<Row>, columns: map<string, ColumnStat>)
    requires Declares(s, rows) && columns.Keys == s.columns.Keys
    requires forall name | name in columns :: MaxDropped(s.columns[name], columns[name])
    ensures Describes(Declared(s, columns), rows)
       <==> forall name | name in columns && HoldsNaN(rows, name) :: CoversNaN(columns[name])
  {
    forall name | name in columns
      ensures ColumnDescribes(Declared(s, columns), columns[name], rows, name)
         <==> (HoldsNaN(rows, name) ==> CoversNaN(columns[name]))
    {
      assert DeclaresColumn(s, s.columns[name], rows, name);
      ColumnExactly(s, rows, s.columns[name], columns[name], Declared(s, columns), name);
    }
  }

  lemma ColumnExactly(s: Source, rows: seq<Row>, c: ColumnStat, c': ColumnStat, stats: RelStats, name: string)
    requires DeclaresColumn(s, c, rows, name) && MaxDropped(c, c')
    requires stats.rows == Declared(s, s.columns).rows && stats.rowsExact == Declared(s, s.columns).rowsExact
    ensures ColumnDescribes(stats, c', rows, name) <==> (HoldsNaN(rows, name) ==> CoversNaN(c'))
  {
    if HoldsNaN(rows, name) {
      var i :| 0 <= i < |rows| && Cell(rows[i], name) == Some(NaN);
      assert Fits(Bounding(s, c, NaN), NaN);
      assert ColumnDescribes(stats, c', rows, name) ==> Fits(c', NaN);
    }
    assert CountsRight(stats, c', rows, name) by {
      assert CountsRight(Declared(s, s.columns), c, rows, name);
    }
    if HoldsNaN(rows, name) ==> CoversNaN(c') {
      forall i | 0 <= i < |rows| && Cell(rows[i], name).Some? ensures Fits(c', Cell(rows[i], name).value) {
        var x := Cell(rows[i], name).value;
        assert Fits(Bounding(s, c, x), x);
        assert x == NaN ==> HoldsNaN(rows, name);
      }
    }
  }

  /** The bridge drops every maximum that NaN may exceed: on columns whose bounds are of the
      column's type its statistics describe the rows, whatever the source leaves out. */
  lemma BridgeDescribes(s: Source, rows: seq<Row>)
    requires Declares(s, rows)
    requires forall name, i | name in s.columns && 0 <= i < |rows| && Cell(rows[i], name).Some? ::
               StatOfKind(s.columns[name], KindOf(Cell(rows[i], name).value))
    ensures Describes(ToRelStats(s), rows)
  {
    var columns := ForReasoning(s);
    forall name | name in columns && HoldsNaN(rows, name) ensures CoversNaN(columns[name]) {
      var i :| 0 <= i < |rows| && Cell(rows[i], name) == Some(NaN);
      assert StatOfKind(s.columns[name], KindOf(Cell(rows[i], name).value));
      assert DeclaresColumn(s, s.columns[name], rows, name);
      assert Fits(Bounding(s, s.columns[name], NaN), NaN);
    }
    DeclarationExactly(s, rows, columns);
  }

  lemma {:induction false} NoneMissing(rows: seq<Row>, name: string)
    requires forall i | 0 <= i < |rows| :: Cell(rows[i], name).Some?
    ensures NullCount(rows, name) == 0
  {
    if rows != [] {
      NoneMissing(rows[1..], name);
    }
  }

  /** One fully counted column, declared by bounds that hold of every value but NaN. */
  lemma OneColumnDeclares(s: Source, rows: seq<Row>, min: Value, max: Value)
    requires s == Source(Some(|rows|), true,
               map["f" := ColumnStat(Some(min), Some(max), Some(0), true, true, None)], s.nanAware)
    requires min != NaN && !min.Str?
    requires forall i | 0 <= i < |rows| :: Cell(rows[i], "f").Some?
    requires forall i | 0 <= i < |rows| ::
               var x := Cell(rows[i], "f").value; Within(min, max, x) || (x == NaN && !s.nanAware)
    ensures Declares(s, rows)
  {
    NoneMissing(rows, "f");
    var c := s.columns["f"];
    forall i | 0 <= i < |rows| && Cell(rows[i], "f").Some?
      ensures var x := Cell(rows[i], "f").value; Fits(Bounding(s, c, x), x)
    {
    }
    assert DeclaresColumn(s, c, rows, "f");
  }

  /** Without the bridge: a footer that leaves NaN out, a row the engine keeps and a status
      that drops it. Across the bridge the comparison is open. */
  lemma FooterLeavesNaNOut(env: Env, s: Source, rows: seq<Row>, test: Pred)
    requires s == Source(Some(3), true,
               map["f" := ColumnStat(Some(Float(0.1)), Some(Float(0.5)), Some(0), true, true, None)], false)
    requires rows == [map["f" := Some(Float(0.1))], map["f" := Some(Float(0.5))], map["f" := Some(NaN)]]
    requires test == Compare(Gt, Col("f"), Lit(Some(Float(0.9))))
    ensures Declares(s, rows) && Eval(env, rows[2], test) == Some(true)
    ensures PredicateStatus(test, Declared(s, s.columns)) == Some(false)
    ensures PredicateStatus(test, ToRelStats(s)) == None && Describes(ToRelStats(s), rows)
  {
    FooterDeclares(s, rows);
    FooterStatus(s, test);
    assert Cell(rows[2], "f") == Some(NaN);
  }

  lemma FooterDeclares(s: Source, rows: seq<Row>)
    requires s == Source(Some(3), true,
               map["f" := ColumnStat(Some(Float(0.1)), Some(Float(0.5)), Some(0), true, true, None)], false)
    requires rows == [map["f" := Some(Float(0.1))], map["f" := Some(Float(0.5))], map["f" := Some(NaN)]]
    ensures Declares(s, rows) && Describes(ToRelStats(s), rows)
  {
    assert Cell(rows[0], "f") == Some(Float(0.1)) && Cell(rows[1], "f") == Some(Float(0.5));
    assert Cell(rows[2], "f") == Some(NaN);
    OneColumnDeclares(s, rows, Float(0.1), Float(0.5));
    BridgeDescribes(s, rows);
  }

  lemma FooterStatus(s: Source, test: Pred)
    requires s == Source(Some(3), true,
               map["f" := ColumnStat(Some(Float(0.1)), Some(Float(0.5)), Some(0), true, true, None)], false)
    requires test == Compare(Gt, Col("f"), Lit(Some(Float(0.9))))
    ensures PredicateStatus(test, Declared(s, s.columns)) == Some(false)
    ensures PredicateStatus(test, ToRelStats(s)) == None
  {
  }

  /** A bound of another type crosses the bridge: a double column whose maximum was written as
      an integer keeps it, and the NaN row is dropped. */
  lemma IntegerBoundCrosses(env: Env, s: Source, rows: seq<Row>, test: Pred)
    requires s == Source(Some(2), true,
               map["f" := ColumnStat(Some(Int(1)), Some(Int(5)), Some(0), true, true, None)], false)
    requires rows == [map["f" := Some(Float(1.0))], map["f" := Some(NaN)]]
    requires test == Compare(Gt, Col("f"), Lit(Some(Float(9.0))))
    ensures Declares(s, rows) && Eval(env, rows[1], test) == Some(true)
    ensures PredicateStatus(test, ToRelStats(s)) == Some(false)
  {
    assert Cell(rows[0], "f") == Some(Float(1.0)) && Cell(rows[1], "f") == Some(NaN);
    OneColumnDeclares(s, rows, Int(1), Int(5));
    IntegerStatus(s, test);
  }

  lemma IntegerStatus(s: Source, test: Pred)
    requires s == Source(Some(2), true,
               map["f" := ColumnStat(Some(Int(1)), Some(Int(5)), Some(0), true, true, None)], false)
    requires test == Compare(Gt, Col("f"), Lit(Some(Float(9.0))))
    ensures PredicateStatus(test, ToRelStats(s)) == Some(false)
  {
  }
}
