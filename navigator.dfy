/**
 * The photo cursor of the viewer: `filtered_results` and `photo_index` in
 * the session state, stepped circularly by `update_index`, reset when a
 * search shows new results and when the user goes back to the filter or
 * home.
 */
module Navigation {
  import opened Wrappers
  import opened Tables
  import opened Filtering

  /** The cursor after `update_index(direction)` over `total` results: no
      change without results; past the end wraps to 0, before the start to
      the last index. */
  function StepIndex(index: int, direction: int, total: nat): (r: int)
    ensures total == 0 ==> r == index
    ensures total > 0 ==> 0 <= r < total
  {
    if total == 0 then index
    else
      var next := index + direction;
      if next >= total then 0
      else if next < 0 then total - 1
      else next
  }

  /** A step of one place from a valid cursor is a step round a circle of
      `total` places. */
  lemma StepIsCircular(index: int, direction: int, total: nat)
    requires 0 <= index < total
    requires direction == 1 || direction == -1
    ensures StepIndex(index, direction, total) == (index + direction) % total
  {
    if index + direction == total {
      assert (index + direction) % total == 0;
    } else if index + direction < 0 {
      assert index + direction == -1;
      assert (total - 1 + total * -1) % total == total - 1;
    } else {
      assert 0 <= index + direction < total;
    }
  }

  /** Going back undoes going forward, and going forward undoes going back. */
  lemma StepBackUndoesStep(index: int, total: nat)
    requires 0 <= index < total
    ensures StepIndex(StepIndex(index, 1, total), -1, total) == index
    ensures StepIndex(StepIndex(index, -1, total), 1, total) == index
  {
  }

  /** Three results: forward from the last goes to the first, back from the
      first goes to the last. */
  lemma ThreeResultsWrap()
    ensures StepIndex(2, 1, 3) == 0
    ensures StepIndex(0, -1, 3) == 2
    ensures StepIndex(1, 1, 0) == 1
  {
  }

  /** What the search button reports. */
  datatype Outcome =
    | CriterionRequired                 // mode "P" and no criterion: nothing runs
    | NoMatch(notice: Notice)           // the filter kept nothing
    | Showing(notice: Notice)           // the viewer opens at the first photo

  /** An empty filter result has no rows: the filter never yields a table
      with rows and no columns. */
  lemma FilterEmptyHasNoRows(t: Table, mode: string, crit: string, yearText: string, individual: bool)
    ensures IsEmpty(Filter(t, mode, crit, yearText, individual).table) ==>
      |Filter(t, mode, crit, yearText, individual).table.rows| == 0
  {
    var text := TextStage(t, mode, crit);
    if !IsEmpty(text) {
      var year := YearStage(text, yearText);
      assert year.table == EmptyTable || year.table.columns == text.columns;
    }
  }

  class Navigator {
    /** `st.session_state.filtered_results` */
    var results: Table
    /** `st.session_state.photo_index` */
    var index: int

    /** The cursor names a photo whenever there is one. */
    ghost predicate Valid()
      reads this
    {
      |results.rows| > 0 ==> 0 <= index < |results.rows|
    }

    /** The session's first values: no results, cursor 0. */
    constructor ()
      ensures results == EmptyTable && index == 0
      ensures Valid()
    {
      results := EmptyTable;
      index := 0;
    }

    /** `update_index(direction)`: whatever the cursor was, it names a photo
        afterwards, and the results do not change. */
    method Step(direction: int)
      modifies this
      ensures results == old(results)
      ensures index == StepIndex(old(index), direction, |results.rows|)
      ensures Valid()
    {
      var total := |results.rows|;
      if total == 0 {
        return;
      }
      var next := index + direction;
      if next >= total {
        index := 0;
      } else if next < 0 {
        index := total - 1;
      } else {
        index := next;
      }
    }

    /** The search button: mode "P" without a criterion is refused; otherwise
        the filter's result becomes the results, and when it is not empty
        the cursor goes to the first photo. An empty result keeps the cursor
        where it was, which is harmless since there is nothing to show. */
    method Search(base: Table, mode: string, crit: string, yearText: string, individual: bool) returns (outcome: Outcome)
      modifies this
      ensures mode == "P" && crit == "" ==> outcome == CriterionRequired && results == old(results) && index == old(index)
      ensures !(mode == "P" && crit == "") ==>
        var f := Filter(base, mode, crit, yearText, individual);
        && results == f.table
        && (IsEmpty(f.table) ==> outcome == NoMatch(f.notice) && index == old(index))
        && (!IsEmpty(f.table) ==> outcome == Showing(f.notice) && index == 0)
        && Valid()
      ensures old(Valid()) ==> Valid()
    {
      if mode == "P" && crit == "" {
        return CriterionRequired;
      }
      var found := FilterData(base, mode, crit, yearText, individual);
      results := found.table;
      FilterEmptyHasNoRows(base, mode, crit, yearText, individual);
      if IsEmpty(results) {
        outcome := NoMatch(found.notice);
      } else {
        index := 0;
        outcome := Showing(found.notice);
      }
    }

    /** `go_to_filter`: back to the filter screen with the cursor at 0. */
    method BackToFilter()
      modifies this
      ensures results == old(results) && index == 0
      ensures Valid()
    {
      index := 0;
    }

    /** `go_home`: the results are cleared and the cursor is 0. */
    method GoHome()
      modifies this
      ensures results == EmptyTable && index == 0
      ensures Valid()
    {
      results := EmptyTable;
      index := 0;
    }

    /** `df.iloc[index]`: the photo under the cursor, none when there are no
        results. */
    method Current() returns (row: Option<Row>)
      requires Valid()
      ensures row.None? <==> |results.rows| == 0
      ensures row.Some? ==> row.value in results.rows && row.value == results.rows[index]
    {
      if |results.rows| == 0 {
        return None;
      }
      row := Some(results.rows[index]);
    }

    /** The counter "Foto {index + 1} de {total}": a position between 1 and
        the total whenever there is a photo. */
    method Counter() returns (position: int, total: int)
      requires Valid()
      ensures total == |results.rows|
      ensures total > 0 ==> 1 <= position <= total
      ensures position == index + 1
    {
      position := index + 1;
      total := |results.rows|;
    }
  }
}
