/**
 * `filter_data`: keep the rows whose description (mode "D") or whose
 * character columns (any other mode) contain the criterion, then apply the
 * "nearest year at or after T" threshold, then re-sort an individual query
 * by year.
 */
module Filtering {
  import opened Wrappers
  import opened Strings
  import opened Tables
  import opened Sorting

  // ------------------------------------------------------------ selection

  /** `df[mask]`: the rows whose mask entry is set, in their order. */
  function Select<T>(rows: seq<T>, mask: seq<bool>): (r: seq<T>)
    requires |mask| == |rows|
    ensures |r| <= |rows|
  {
    if rows == [] then []
    else (if mask[0] then [rows[0]] else []) + Select(rows[1..], mask[1..])
  }

  /** Selection takes rows out and never adds one. */
  lemma {:induction false} SelectSubMultiset<T>(rows: seq<T>, mask: seq<bool>)
    requires |mask| == |rows|
    ensures multiset(Select(rows, mask)) <= multiset(rows)
  {
    if rows != [] {
      SelectSubMultiset(rows[1..], mask[1..]);
      assert rows == [rows[0]] + rows[1..];
    }
  }

  /** Every row whose mask entry is set is selected. */
  lemma {:induction false} SelectKeeps<T>(rows: seq<T>, mask: seq<bool>)
    requires |mask| == |rows|
    ensures forall i :: 0 <= i < |rows| && mask[i] ==> rows[i] in Select(rows, mask)
  {
    if rows != [] {
      var rest := Select(rows[1..], mask[1..]);
      SelectKeeps(rows[1..], mask[1..]);
      forall i | 1 <= i < |rows| && mask[i] ensures rows[i] in Select(rows, mask) {
        assert rows[1..][i - 1] in rest;
      }
    }
  }

  /** Every selected row has its mask entry set. */
  lemma {:induction false} SelectOnlyMasked<T>(rows: seq<T>, mask: seq<bool>)
    requires |mask| == |rows|
    ensures forall x :: x in Select(rows, mask) ==> exists i :: 0 <= i < |rows| && mask[i] && rows[i] == x
  {
    if rows != [] {
      var rest := Select(rows[1..], mask[1..]);
      SelectOnlyMasked(rows[1..], mask[1..]);
      forall x | x in rest ensures exists i :: 0 <= i < |rows| && mask[i] && rows[i] == x {
        var j :| 0 <= j < |rows| - 1 && mask[1..][j] && rows[1..][j] == x;
        assert mask[j + 1] && rows[j + 1] == x;
      }
    }
  }

  /** A row is selected exactly when some occurrence of it is masked in. */
  lemma SelectMembers<T>(rows: seq<T>, mask: seq<bool>)
    requires |mask| == |rows|
    ensures multiset(Select(rows, mask)) <= multiset(rows)
    ensures forall x :: x in Select(rows, mask) <==> exists i :: 0 <= i < |rows| && mask[i] && rows[i] == x
  {
    SelectSubMultiset(rows, mask);
    SelectKeeps(rows, mask);
    SelectOnlyMasked(rows, mask);
  }

  /** A mask computed by a predicate selects exactly the rows satisfying it. */
  lemma SelectWhere<T>(rows: seq<T>, mask: seq<bool>, p: T -> bool)
    requires |mask| == |rows| && forall i :: 0 <= i < |rows| ==> mask[i] == p(rows[i])
    ensures forall x :: x in Select(rows, mask) <==> x in rows && p(x)
  {
    SelectMembers(rows, mask);
    forall x | x in rows && p(x) ensures x in Select(rows, mask) {
      var i :| 0 <= i < |rows| && rows[i] == x;
      assert mask[i];
    }
  }

  /** The elements of `s` that satisfy `p`, in their order and with every
      repetition: what a boolean-mask selection means. */
  function Keep<T>(s: seq<T>, p: T -> bool): seq<T> {
    if s == [] then []
    else (if p(s[0]) then [s[0]] else []) + Keep(s[1..], p)
  }

  /** `a` is `b` with some elements deleted, the rest in their order. */
  ghost predicate Subsequence<T>(a: seq<T>, b: seq<T>) {
    if a == [] then true
    else if b == [] then false
    else (a[0] == b[0] && Subsequence(a[1..], b[1..])) || Subsequence(a, b[1..])
  }

  /** A mask computed by a predicate selects what `Keep` keeps. */
  lemma {:induction false} SelectIsKeep<T>(rows: seq<T>, mask: seq<bool>, p: T -> bool)
    requires |mask| == |rows| && forall i :: 0 <= i < |rows| ==> mask[i] == p(rows[i])
    ensures Select(rows, mask) == Keep(rows, p)
  {
    if rows != [] {
      assert mask[0] == p(rows[0]);
      forall i | 0 <= i < |rows| - 1 ensures mask[1..][i] == p(rows[1..][i]) {
        assert mask[i + 1] == p(rows[i + 1]);
      }
      SelectIsKeep(rows[1..], mask[1..], p);
    }
  }

  /** `Keep` keeps every copy of an element that satisfies `p` and no copy
      of one that does not. */
  lemma {:induction false} KeepCount<T>(s: seq<T>, p: T -> bool, x: T)
    ensures multiset(Keep(s, p))[x] == if p(x) then multiset(s)[x] else 0
  {
    if s != [] {
      KeepCount(s[1..], p, x);
      assert s == [s[0]] + s[1..];
      assert multiset(s) == multiset{s[0]} + multiset(s[1..]);
    }
  }

  /** `Keep` deletes elements and keeps the order of the rest. */
  lemma {:induction false} KeepSubsequence<T>(s: seq<T>, p: T -> bool)
    ensures Subsequence(Keep(s, p), s)
  {
    if s != [] {
      KeepSubsequence(s[1..], p);
      if p(s[0]) {
        assert Keep(s, p) == [s[0]] + Keep(s[1..], p);
        assert Keep(s, p)[1..] == Keep(s[1..], p);
      } else {
        assert Keep(s, p) == Keep(s[1..], p);
      }
    }
  }

  /** A mask that is set everywhere keeps every row. */
  lemma {:induction false} SelectAll<T>(rows: seq<T>, mask: seq<bool>)
    requires |mask| == |rows| && forall i :: 0 <= i < |mask| ==> mask[i]
    ensures Select(rows, mask) == rows
  {
    if rows != [] {
      SelectAll(rows[1..], mask[1..]);
    }
  }

  // ---------------------------------------------------------- description

  const DescriptionColumn := "DESCRIPCION"

  /** `df.get("DESCRIPCION", pd.Series(""))` row by row, after `astype(str)`. */
  function DescriptionText(t: Table, r: Row): string {
    if DescriptionColumn in t.columns then AsStr(Get(r, DescriptionColumn)) else ""
  }

  /** `str.contains(criterio, case=False)` on the description. */
  predicate DescriptionMatch(t: Table, r: Row, crit: string) {
    ContainsIgnoreCase(DescriptionText(t, r), crit)
  }

  function DescriptionMask(t: Table, crit: string): (m: seq<bool>)
    ensures |m| == |t.rows|
    ensures forall i :: 0 <= i < |t.rows| ==> m[i] == DescriptionMatch(t, t.rows[i], crit)
  {
    seq(|t.rows|, i requires 0 <= i < |t.rows| => DescriptionMatch(t, t.rows[i], crit))
  }

  // ------------------------------------------------------------ character

  /** The marker of a character column: `"PERSONAJE" in col`. */
  const CharacterMarker := "PERSONAJE"

  predicate IsCharacterColumn(column: string) {
    Contains(column, CharacterMarker)
  }

  /** `df[col].astype(str).str.contains(criterio, case=False)` for one row. */
  predicate CellMatches(r: Row, column: string, crit: string) {
    ContainsIgnoreCase(AsStr(Get(r, column)), crit)
  }

  /** A row is kept in character mode when some character column of the
      table holds the criterion. */
  predicate CharacterMatch(t: Table, r: Row, crit: string) {
    exists c :: c in t.columns && IsCharacterColumn(c) && CellMatches(r, c, crit)
  }

  function CharacterMaskOf(t: Table, crit: string): (m: seq<bool>)
    ensures |m| == |t.rows|
    ensures forall i :: 0 <= i < |t.rows| ==> m[i] == CharacterMatch(t, t.rows[i], crit)
  {
    seq(|t.rows|, i requires 0 <= i < |t.rows| => CharacterMatch(t, t.rows[i], crit))
  }

  /** `columnas_personaje`: the character columns, in table order. */
  function CharacterColumns(columns: seq<string>): (r: seq<string>)
    ensures forall c :: c in r <==> c in columns && IsCharacterColumn(c)
  {
    if columns == [] then []
    else (if IsCharacterColumn(columns[0]) then [columns[0]] else []) + CharacterColumns(columns[1..])
  }

  /** Some column of `columns` holds the criterion in row `r`. */
  predicate AnyCellMatches(r: Row, columns: seq<string>, crit: string) {
    exists k :: 0 <= k < |columns| && CellMatches(r, columns[k], crit)
  }

  lemma AnyCellMatchesSnoc(r: Row, columns: seq<string>, column: string, crit: string)
    ensures AnyCellMatches(r, columns + [column], crit) == (AnyCellMatches(r, columns, crit) || CellMatches(r, column, crit))
  {
    var more := columns + [column];
    if AnyCellMatches(r, more, crit) {
      var k :| 0 <= k < |more| && CellMatches(r, more[k], crit);
      if k < |columns| {
        assert more[k] == columns[k];
      }
    }
    if AnyCellMatches(r, columns, crit) {
      var k :| 0 <= k < |columns| && CellMatches(r, columns[k], crit);
      assert more[k] == columns[k];
    }
    assert more[|columns|] == column;
  }

  /** Scanning the character columns finds a match exactly when the row
      matches in character mode. */
  lemma CharacterColumnsMatch(t: Table, r: Row, crit: string)
    ensures AnyCellMatches(r, CharacterColumns(t.columns), crit) == CharacterMatch(t, r, crit)
  {
    var columns := CharacterColumns(t.columns);
    if AnyCellMatches(r, columns, crit) {
      var k :| 0 <= k < |columns| && CellMatches(r, columns[k], crit);
      assert columns[k] in columns;
    }
    if CharacterMatch(t, r, crit) {
      var c :| c in t.columns && IsCharacterColumn(c) && CellMatches(r, c, crit);
      assert c in columns;
      var k :| 0 <= k < |columns| && columns[k] == c;
    }
  }

  /** The mask of character mode: `filtro` starts all false and is OR'd with
      the match of each character column in turn. */
  method CharacterMask(t: Table, crit: string) returns (mask: seq<bool>)
    ensures |mask| == |t.rows|
    ensures forall i :: 0 <= i < |t.rows| ==> mask[i] == CharacterMatch(t, t.rows[i], crit)
  {
    var columns := CharacterColumns(t.columns);
    mask := seq(|t.rows|, _ => false);
    for j := 0 to |columns|
      invariant |mask| == |t.rows|
      invariant forall i :: 0 <= i < |t.rows| ==> mask[i] == AnyCellMatches(t.rows[i], columns[..j], crit)
    {
      var column := columns[j];
      var hits := seq(|t.rows|, i requires 0 <= i < |t.rows| => CellMatches(t.rows[i], column, crit));
      var before := mask;
      mask := seq(|t.rows|, i requires 0 <= i < |before| && i < |hits| => before[i] || hits[i]);
      assert columns[..j + 1] == columns[..j] + [column];
      forall i | 0 <= i < |t.rows| ensures mask[i] == AnyCellMatches(t.rows[i], columns[..j + 1], crit) {
        AnyCellMatchesSnoc(t.rows[i], columns[..j], column, crit);
      }
    }
    assert columns[..|columns|] == columns;
    forall i | 0 <= i < |t.rows| ensures mask[i] == CharacterMatch(t, t.rows[i], crit) {
      CharacterColumnsMatch(t, t.rows[i], crit);
    }
  }

  // ----------------------------------------------------------- text stage

  /** Description mode with a criterion (lines 279-281): the rows, in order,
      whose description contains it. */
  function DescriptionStage(t: Table, crit: string): (r: Table)
    ensures r.columns == t.columns
    ensures forall x :: x in r.rows <==> x in t.rows && DescriptionMatch(t, x, crit)
    ensures multiset(r.rows) <= multiset(t.rows)
  {
    var mask := DescriptionMask(t, crit);
    SelectSubMultiset(t.rows, mask);
    SelectWhere(t.rows, mask, x => DescriptionMatch(t, x, crit));
    Table(t.columns, Select(t.rows, mask))
  }

  /** Character mode with a criterion: the rows, in order, with a character
      column that contains it. */
  function CharacterStage(t: Table, crit: string): (r: Table)
    ensures r.columns == t.columns
    ensures forall x :: x in r.rows <==> x in t.rows && CharacterMatch(t, x, crit)
    ensures multiset(r.rows) <= multiset(t.rows)
  {
    var mask := CharacterMaskOf(t, crit);
    SelectSubMultiset(t.rows, mask);
    SelectWhere(t.rows, mask, x => CharacterMatch(t, x, crit));
    Table(t.columns, Select(t.rows, mask))
  }

  /** Step 1 of `filter_data`: mode "D" keeps every row for an empty criterion
      and otherwise the rows whose description contains it; any other mode is
      character mode, which yields `pd.DataFrame()` for an empty criterion. */
  function TextStage(t: Table, mode: string, crit: string): (r: Table)
    ensures mode == "D" && crit == "" ==> r == t
    ensures mode == "D" && crit != "" ==>
      && r.columns == t.columns
      && forall x :: x in r.rows <==> x in t.rows && DescriptionMatch(t, x, crit)
    ensures mode != "D" && crit == "" ==> r == EmptyTable
    ensures mode != "D" && crit != "" ==>
      && r.columns == t.columns
      && forall x :: x in r.rows <==> x in t.rows && CharacterMatch(t, x, crit)
    ensures multiset(r.rows) <= multiset(t.rows)
  {
    if mode == "D" then
      if crit == "" then t else DescriptionStage(t, crit)
    else if crit == "" then EmptyTable
    else CharacterStage(t, crit)
  }

  /** Description mode keeps the matching rows in their order, each copy of
      a matching row included. */
  lemma DescriptionStageInOrder(t: Table, crit: string)
    ensures DescriptionStage(t, crit).rows == Keep(t.rows, x => DescriptionMatch(t, x, crit))
  {
    SelectIsKeep(t.rows, DescriptionMask(t, crit), x => DescriptionMatch(t, x, crit));
  }

  /** Character mode keeps the matching rows in their order, each copy of a
      matching row included. */
  lemma CharacterStageInOrder(t: Table, crit: string)
    ensures CharacterStage(t, crit).rows == Keep(t.rows, x => CharacterMatch(t, x, crit))
  {
    SelectIsKeep(t.rows, CharacterMaskOf(t, crit), x => CharacterMatch(t, x, crit));
  }

  /** With a criterion, the text stage is a filter that keeps order and
      multiplicity: every matching row, as often as it occurs, and no other. */
  lemma TextStageInOrder(t: Table, mode: string, crit: string)
    requires crit != ""
    ensures mode == "D" ==> TextStage(t, mode, crit).rows == Keep(t.rows, x => DescriptionMatch(t, x, crit))
    ensures mode != "D" ==> TextStage(t, mode, crit).rows == Keep(t.rows, x => CharacterMatch(t, x, crit))
  {
    if mode == "D" {
      DescriptionStageInOrder(t, crit);
    } else {
      CharacterStageInOrder(t, crit);
    }
  }

  // ----------------------------------------------------------- year stage

  /** What `filter_data` tells the user besides the rows: the adjusted
      threshold, or that the year text is not a number. */
  datatype Notice = NoNotice | Adjusted(requested: int, found: int) | YearNotANumber

  datatype Filtered = Filtered(table: Table, notice: Notice)

  /** `AÑO_FILTRO_NUM`: the numeric year of every row. */
  function Years(rows: seq<Row>): (ys: seq<Option<int>>)
    ensures |ys| == |rows|
    ensures forall i :: 0 <= i < |rows| ==> ys[i] == RowYear(rows[i])
  {
    seq(|rows|, i requires 0 <= i < |rows| => RowYear(rows[i]))
  }

  /** `AÑO_FILTRO_NUM >= y`: a missing year compares false. */
  predicate AtLeast(year: Option<int>, y: int) {
    year.Some? && year.value >= y
  }

  predicate YearAtLeast(r: Row, y: int) {
    AtLeast(RowYear(r), y)
  }

  function AtLeastMask(years: seq<Option<int>>, y: int): (m: seq<bool>)
    ensures |m| == |years|
    ensures forall i :: 0 <= i < |years| ==> m[i] == AtLeast(years[i], y)
  {
    seq(|years|, i requires 0 <= i < |years| => AtLeast(years[i], y))
  }

  /** The mask `AÑO_FILTRO_NUM >= y` over the rows. */
  function YearMask(rows: seq<Row>, y: int): (m: seq<bool>)
    ensures |m| == |rows|
    ensures forall i :: 0 <= i < |rows| ==> m[i] == YearAtLeast(rows[i], y)
  {
    AtLeastMask(Years(rows), y)
  }

  /** `years[years >= y].min()`: the least year at or after `y`, `None`
      (pandas' NaN) when there is none. */
  function Least(years: seq<Option<int>>, y: int): Option<int> {
    if years == [] then None
    else
      var rest := Least(years[1..], y);
      if !AtLeast(years[0], y) then rest
      else if rest.None? || years[0].value <= rest.value then years[0]
      else rest
  }

  /** The least year is missing exactly when no year reaches `y`; otherwise
      it is one of the years, at least `y`, and no later than any year that
      reaches `y`. */
  lemma {:induction false} LeastIsLeast(years: seq<Option<int>>, y: int)
    ensures Least(years, y).None? <==> forall i :: 0 <= i < |years| ==> !AtLeast(years[i], y)
    ensures Least(years, y).Some? ==>
      && Least(years, y).value >= y
      && (exists i :: 0 <= i < |years| && years[i] == Least(years, y))
      && forall i :: 0 <= i < |years| && AtLeast(years[i], y) ==> Least(years, y).value <= years[i].value
  {
    if years != [] {
      LeastIsLeast(years[1..], y);
      var rest := Least(years[1..], y);
      if rest.Some? {
        var j :| 0 <= j < |years| - 1 && years[1..][j] == rest;
        assert years[j + 1] == rest;
      }
      forall i | 1 <= i < |years| && AtLeast(years[i], y) ensures rest.Some? && rest.value <= years[i].value {
        assert years[1..][i - 1] == years[i];
      }
    }
  }

  /** `siguiente_anio_val`: the least year at or after `y` among the rows. */
  function NearestYear(rows: seq<Row>, y: int): Option<int> {
    Least(Years(rows), y)
  }

  /** The nearest year is missing exactly when no row reaches `y`; otherwise
      some row has it, it reaches `y`, and every row that reaches `y` has a
      year no earlier. */
  lemma NearestYearIsLeast(rows: seq<Row>, y: int)
    ensures NearestYear(rows, y).None? <==> forall i :: 0 <= i < |rows| ==> !YearAtLeast(rows[i], y)
    ensures NearestYear(rows, y).Some? ==>
      && NearestYear(rows, y).value >= y
      && (exists i :: 0 <= i < |rows| && RowYear(rows[i]) == NearestYear(rows, y))
      && forall i :: 0 <= i < |rows| && YearAtLeast(rows[i], y) ==> NearestYear(rows, y).value <= RowYear(rows[i]).value
  {
    var years := Years(rows);
    var m := Least(years, y);
    assert NearestYear(rows, y) == m;
    LeastIsLeast(years, y);
    forall i | 0 <= i < |rows| ensures YearAtLeast(rows[i], y) == AtLeast(years[i], y) {
    }
    if m.Some? {
      var j :| 0 <= j < |years| && years[j] == m;
      assert RowYear(rows[j]) == m;
      forall i | 0 <= i < |rows| && YearAtLeast(rows[i], y) ensures m.value <= RowYear(rows[i]).value {
        assert AtLeast(years[i], y);
      }
    }
  }

  /** The threshold for a year text that reads as the integer `requested`:
      keep the rows from the nearest year at or after it, or nothing when
      there is no such year. */
  function ThresholdStage(t: Table, requested: int): Filtered {
    match NearestYear(t.rows, requested)
    case None => Filtered(EmptyTable, NoNotice)
    case Some(found) =>
      Filtered(Table(t.columns, Select(t.rows, YearMask(t.rows, found))),
               if found > requested then Adjusted(requested, found) else NoNotice)
  }

  /** Step 2 of `filter_data`: an empty year text changes nothing; text that
      is not an integer changes nothing but the notice; an integer applies
      the threshold. */
  function YearStage(t: Table, yearText: string): Filtered {
    if yearText == "" then Filtered(t, NoNotice)
    else match ParseInt(Strip(yearText))
      case None => Filtered(t, YearNotANumber)
      case Some(requested) => ThresholdStage(t, requested)
  }

  // --------------------------------------------------------------- resort

  lemma RowYearLeIsTotalPreorder()
    ensures TotalPreorder(RowYearLe)
  {
  }

  /** Whether step 3 re-sorts: an individual query, a year text, some rows. */
  predicate ResortApplies(t: Table, yearText: string, individual: bool) {
    individual && yearText != "" && |t.rows| > 0
  }

  /** Step 3 of `filter_data`: an individual query with a year text re-sorts
      its non-empty result by year, missing last. */
  function Resort(t: Table, yearText: string, individual: bool): (r: Table)
    ensures r.columns == t.columns && multiset(r.rows) == multiset(t.rows)
    ensures ResortApplies(t, yearText, individual) ==> SortedBy(r.rows, RowYearLe)
    ensures !ResortApplies(t, yearText, individual) ==> r == t
  {
    if ResortApplies(t, yearText, individual) then
      RowYearLeIsTotalPreorder();
      Table(t.columns, SortBy(t.rows, RowYearLe))
    else t
  }

  // ------------------------------------------------------------- pipeline

  /** `filter_data(df, modo, criterio, anio_filtro_str)`, with the query kind
      passed in: the rows and the notice shown beside them. */
  function Filter(t: Table, mode: string, crit: string, yearText: string, individual: bool): Filtered {
    var text := TextStage(t, mode, crit);
    if IsEmpty(text) then Filtered(EmptyTable, NoNotice)
    else
      var year := YearStage(text, yearText);
      Filtered(Resort(year.table, yearText, individual), year.notice)
  }

  /** Step 1 of `filter_data`, building the character mask with a loop. */
  method TextFilter(t: Table, mode: string, crit: string) returns (filtered: Table)
    ensures filtered == TextStage(t, mode, crit)
  {
    if mode == "D" {
      if crit == "" {
        filtered := t;
      } else {
        filtered := Table(t.columns, Select(t.rows, DescriptionMask(t, crit)));
      }
    } else if crit == "" {
      filtered := EmptyTable;
    } else {
      var mask := CharacterMask(t, crit);
      assert mask == CharacterMaskOf(t, crit);
      filtered := Table(t.columns, Select(t.rows, mask));
    }
  }

  /** `filter_data`, stage by stage: the character-mode refusal and an empty
      text stage end it early; the year stage reassigns the rows; an
      individual query with a year text re-sorts what is left. */
  method FilterData(t: Table, mode: string, crit: string, yearText: string, individual: bool) returns (out: Filtered)
    ensures out == Filter(t, mode, crit, yearText, individual)
  {
    var filtered := TextFilter(t, mode, crit);
    if IsEmpty(filtered) {
      return Filtered(EmptyTable, NoNotice);
    }
    var year := YearStage(filtered, yearText);
    filtered := year.table;
    if individual && yearText != "" && |filtered.rows| > 0 {
      RowYearLeIsTotalPreorder();
      filtered := Table(filtered.columns, SortBy(filtered.rows, RowYearLe));
    }
    out := Filtered(filtered, year.notice);
  }

  // ----------------------------------------------------------- properties

  /** Description mode with an empty criterion and no year text shows every
      row, unchanged and in order (`df.copy()`). */
  lemma DescriptionEmptyCriterion(t: Table, individual: bool)
    requires !IsEmpty(t)
    ensures Filter(t, "D", "", "", individual) == Filtered(t, NoNotice)
  {
  }

  /** Character mode with an empty criterion shows nothing, whatever the year
      text: `return pd.DataFrame()` comes before the year stage. */
  lemma CharacterEmptyCriterion(t: Table, mode: string, yearText: string, individual: bool)
    requires mode != "D"
    ensures Filter(t, mode, "", yearText, individual) == Filtered(EmptyTable, NoNotice)
  {
  }

  /** Only "D" selects description mode; every other mode string filters
      exactly as "P" does. */
  lemma OtherModesAreCharacter(t: Table, mode: string, crit: string, yearText: string, individual: bool)
    requires mode != "D"
    ensures Filter(t, mode, crit, yearText, individual) == Filter(t, "P", crit, yearText, individual)
  {
  }

  /** When the text stage keeps nothing the result is empty and the year text
      is never looked at: no notice, not even for a year that is not a number. */
  lemma EmptyTextSkipsYear(t: Table, mode: string, crit: string, yearText: string, individual: bool)
    requires IsEmpty(TextStage(t, mode, crit))
    ensures Filter(t, mode, crit, yearText, individual) == Filtered(EmptyTable, NoNotice)
  {
  }

  /** Keeping the years from the least one at or after `y` keeps exactly
      the years from `y` on: no year lies between `y` and the least one. */
  lemma LeastMask(years: seq<Option<int>>, y: int)
    requires Least(years, y).Some?
    ensures AtLeastMask(years, Least(years, y).value) == AtLeastMask(years, y)
  {
    LeastIsLeast(years, y);
    var found := Least(years, y).value;
    var a := AtLeastMask(years, found);
    var b := AtLeastMask(years, y);
    forall i | 0 <= i < |years| ensures a[i] == b[i] {
      if AtLeast(years[i], y) {
        assert found <= years[i].value;
      }
    }
    assert a == b;
  }

  /** The least year lies after the requested one exactly when no year is the
      requested one itself. */
  lemma LeastAfter(years: seq<Option<int>>, y: int)
    requires Least(years, y).Some?
    ensures Least(years, y).value > y <==> forall i :: 0 <= i < |years| ==> years[i] != Some(y)
  {
    var found := Least(years, y).value;
    LeastIsLeast(years, y);
    if found > y {
      forall i | 0 <= i < |years| ensures years[i] != Some(y) {
        assert AtLeast(years[i], y) ==> found <= years[i].value;
      }
    } else {
      var w :| 0 <= w < |years| && years[w] == Some(found);
      assert years[w] == Some(y);
    }
  }

  /** The year threshold at `y`: with no row from `y` on the result is
      empty and silent; otherwise it is exactly the rows (in order) whose
      year is `y` or later, rows with no year dropped. */
  lemma ThresholdRows(s: Table, y: int)
    ensures (forall i :: 0 <= i < |s.rows| ==> !YearAtLeast(s.rows[i], y)) ==>
      ThresholdStage(s, y) == Filtered(EmptyTable, NoNotice)
    ensures (exists i :: 0 <= i < |s.rows| && YearAtLeast(s.rows[i], y)) ==>
      ThresholdStage(s, y).table == Table(s.columns, Select(s.rows, YearMask(s.rows, y)))
  {
    var years := Years(s.rows);
    LeastIsLeast(years, y);
    var nearest := Least(years, y);
    if nearest.Some? {
      LeastMask(years, y);
    }
  }

  /** The notice of the year threshold at `y`, when some row has a year from
      `y` on: "adjusted" exactly when no row has year `y` itself, carrying
      `y` and the least year found after it. */
  lemma ThresholdNotice(s: Table, y: int)
    requires exists i :: 0 <= i < |s.rows| && YearAtLeast(s.rows[i], y)
    ensures var n := ThresholdStage(s, y).notice;
      && (n.Adjusted? <==> forall i :: 0 <= i < |s.rows| ==> RowYear(s.rows[i]) != Some(y))
      && (n.Adjusted? ==>
            && n.requested == y && n.found > y
            && (exists i :: 0 <= i < |s.rows| && RowYear(s.rows[i]) == Some(n.found))
            && forall i :: 0 <= i < |s.rows| && YearAtLeast(s.rows[i], y) ==> n.found <= RowYear(s.rows[i]).value)
      && (!n.Adjusted? ==> n == NoNotice)
  {
    NearestYearIsLeast(s.rows, y);
    var found := NearestYear(s.rows, y).value;
    ThresholdNoticeOf(s, y);
    if found > y {
      forall i | 0 <= i < |s.rows| ensures RowYear(s.rows[i]) != Some(y) {
        if RowYear(s.rows[i]) == Some(y) {
          assert YearAtLeast(s.rows[i], y);
        }
      }
      var j :| 0 <= j < |s.rows| && RowYear(s.rows[j]) == Some(found);
      assert ThresholdStage(s, y).notice == Adjusted(y, found);
    } else {
      var j :| 0 <= j < |s.rows| && RowYear(s.rows[j]) == Some(found);
      assert RowYear(s.rows[j]) == Some(y);
    }
  }

  /** The notice of the threshold: adjusted exactly when the nearest year
      lies after the requested one. */
  lemma ThresholdNoticeOf(s: Table, y: int)
    requires NearestYear(s.rows, y).Some?
    ensures var found := NearestYear(s.rows, y).value;
      ThresholdStage(s, y).notice == if found > y then Adjusted(y, found) else NoNotice
  {
  }

  /** A year text that is not an integer (a word, or only white space) leaves
      the rows of the text stage as they are, apart from the re-sort, and
      raises the "not a number" notice. */
  lemma YearTextNotANumber(t: Table, mode: string, crit: string, yearText: string, individual: bool)
    requires !IsEmpty(TextStage(t, mode, crit))
    requires yearText != "" && ParseInt(Strip(yearText)).None?
    ensures Filter(t, mode, crit, yearText, individual) ==
      Filtered(Resort(TextStage(t, mode, crit), yearText, individual), YearNotANumber)
  {
  }

  /** A year text of white space only is ignored as a year, yet it is not
      empty: an individual query still gets its rows re-sorted by year. */
  lemma BlankYearTextStillResorts(t: Table, mode: string, crit: string, yearText: string)
    requires !IsEmpty(TextStage(t, mode, crit))
    requires yearText != "" && forall i :: 0 <= i < |yearText| ==> IsSpace(yearText[i])
    ensures var r := Filter(t, mode, crit, yearText, true);
      && r.notice == YearNotANumber
      && multiset(r.table.rows) == multiset(TextStage(t, mode, crit).rows)
      && SortedBy(r.table.rows, RowYearLe)
  {
    StripEmptyIff(yearText);
    assert ParseInt(Strip(yearText)) == None;
  }

  /** The year stage only takes rows away. */
  lemma YearStageSubMultiset(s: Table, yearText: string)
    ensures multiset(YearStage(s, yearText).table.rows) <= multiset(s.rows)
  {
    if yearText != "" && ParseInt(Strip(yearText)).Some? {
      var nearest := NearestYear(s.rows, ParseInt(Strip(yearText)).value);
      if nearest.Some? {
        SelectSubMultiset(s.rows, YearMask(s.rows, nearest.value));
      }
    }
  }

  /** Every row the threshold at `y` keeps has a year of `y` or later. */
  lemma ThresholdAtLeast(s: Table, y: int)
    ensures forall x :: x in ThresholdStage(s, y).table.rows ==> YearAtLeast(x, y)
  {
    var r := ThresholdStage(s, y);
    ThresholdRows(s, y);
    if exists i :: 0 <= i < |s.rows| && YearAtLeast(s.rows[i], y) {
      var mask := YearMask(s.rows, y);
      assert r.table.rows == Select(s.rows, mask);
      SelectOnlyMasked(s.rows, mask);
      forall x | x in r.table.rows ensures YearAtLeast(x, y) {
        var i :| 0 <= i < |s.rows| && mask[i] && s.rows[i] == x;
      }
    }
  }

  /** The secondary re-sort is the only difference between an individual and
      a global query: same notice, same rows; the individual result is sorted
      by year, missing last, whenever a year text was given and rows remain,
      while the global result keeps the order of the year stage. */
  lemma ResortOnlyForIndividual(t: Table, mode: string, crit: string, yearText: string)
    ensures var single := Filter(t, mode, crit, yearText, true);
      var global := Filter(t, mode, crit, yearText, false);
      && single.notice == global.notice
      && multiset(single.table.rows) == multiset(global.table.rows)
      && (yearText != "" && |global.table.rows| > 0 ==> SortedBy(single.table.rows, RowYearLe))
      && (!IsEmpty(TextStage(t, mode, crit)) ==> global.table == YearStage(TextStage(t, mode, crit), yearText).table)
  {
  }

  /** The result is drawn from the input: every row occurs in it at least as
      often, matches the criterion of its mode, and has a year at or after
      the threshold when one was given. */
  lemma FilterKeepsMatchingRows(t: Table, mode: string, crit: string, yearText: string, individual: bool)
    ensures var r := Filter(t, mode, crit, yearText, individual).table;
      && multiset(r.rows) <= multiset(t.rows)
      && (forall x :: x in r.rows && mode == "D" && crit != "" ==> DescriptionMatch(t, x, crit))
      && (forall x :: x in r.rows && mode != "D" ==> CharacterMatch(t, x, crit))
      && (forall x :: x in r.rows && yearText != "" && ParseInt(Strip(yearText)).Some? ==>
            YearAtLeast(x, ParseInt(Strip(yearText)).value))
  {
    FilterRowsFromTextStage(t, mode, crit, yearText, individual);
  }

  /** Every row of the result is a row of step 1 that reaches the year
      threshold, when one was given. */
  lemma FilterRowsFromTextStage(t: Table, mode: string, crit: string, yearText: string, individual: bool)
    ensures var text := TextStage(t, mode, crit); var r := Filter(t, mode, crit, yearText, individual).table;
      && multiset(r.rows) <= multiset(text.rows)
      && forall x :: x in r.rows ==>
           && x in text.rows
           && (yearText != "" && ParseInt(Strip(yearText)).Some? ==> YearAtLeast(x, ParseInt(Strip(yearText)).value))
  {
    var text := TextStage(t, mode, crit);
    if !IsEmpty(text) {
      YearStageRows(text, yearText, individual);
    }
  }

  /** Steps 2 and 3 keep rows of their input, and only rows that reach the
      year threshold when one was given. */
  lemma YearStageRows(text: Table, yearText: string, individual: bool)
    ensures var r := Resort(YearStage(text, yearText).table, yearText, individual);
      && multiset(r.rows) <= multiset(text.rows)
      && forall x :: x in r.rows ==>
           && x in text.rows
           && (yearText != "" && ParseInt(Strip(yearText)).Some? ==> YearAtLeast(x, ParseInt(Strip(yearText)).value))
  {
    var year := YearStage(text, yearText);
    var r := Resort(year.table, yearText, individual);
    YearStageSubMultiset(text, yearText);
    if yearText != "" && ParseInt(Strip(yearText)).Some? {
      ThresholdAtLeast(text, ParseInt(Strip(yearText)).value);
    }
    assert multiset(r.rows) == multiset(year.table.rows);
    forall x | x in r.rows ensures x in year.table.rows && x in text.rows {
      assert x in multiset(r.rows);
      assert x in multiset(text.rows);
    }
  }

  // ------------------------------------------------------------- examples

  lemma ExampleLeast()
    ensures Least([Some(2001), Some(2003), Some(2003), Some(2005)], 2002) == Some(2003)
  {
    var years: seq<Option<int>> := [Some(2001), Some(2003), Some(2003), Some(2005)];
    assert years[1..] == [Some(2003), Some(2003), Some(2005)];
    assert years[1..][1..] == [Some(2003), Some(2005)];
    assert years[1..][1..][1..] == [Some(2005)];
    assert |years[1..][1..][1..][1..]| == 0;
  }

  lemma ExampleMask()
    ensures AtLeastMask([Some(2001), Some(2003), Some(2003), Some(2005)], 2003) == [false, true, true, true]
  {
    var m := AtLeastMask([Some(2001), Some(2003), Some(2003), Some(2005)], 2003);
    assert |m| == 4 && !m[0] && m[1] && m[2] && m[3];
  }

  lemma DropFirst<T>(rows: seq<T>, mask: seq<bool>)
    requires |rows| == 4 && mask == [false, true, true, true]
    ensures Select(rows, mask) == rows[1..]
  {
    SelectAll(rows[1..], mask[1..]);
  }

  /** Years 2001, 2003, 2003 and 2005 with threshold 2002: the nearest year is
      2003, the three rows of 2003 and 2005 remain, and the notice says the
      threshold was moved from 2002 to 2003. */
  lemma ThresholdMovesToNearestYear(s: Table)
    requires Years(s.rows) == [Some(2001), Some(2003), Some(2003), Some(2005)]
    ensures ThresholdStage(s, 2002) == Filtered(Table(s.columns, s.rows[1..]), Adjusted(2002, 2003))
  {
    ExampleLeast();
    ExampleMask();
    DropFirst(s.rows, YearMask(s.rows, 2003));
  }

  /** Threshold 2010 above every year (2001 and 2005): nothing remains and no
      notice is shown. */
  lemma ThresholdAboveEveryYear(s: Table)
    requires Years(s.rows) == [Some(2001), Some(2005)]
    ensures ThresholdStage(s, 2010) == Filtered(EmptyTable, NoNotice)
  {
    var years := Years(s.rows);
    forall i | 0 <= i < |s.rows| ensures !YearAtLeast(s.rows[i], 2010) {
      assert years[i] == RowYear(s.rows[i]);
    }
    ThresholdRows(s, 2010);
  }
}
