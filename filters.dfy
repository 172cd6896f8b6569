/** The sidebar filters: an institution selector and a status multi-selector, each
    with a sentinel option meaning "no restriction". */
module Filters {
  import opened Wrappers
  import opened Seqs
  import opened Text
  import opened Records

  /** The selector's choices: the sentinel, then the distinct institutions in ascending order.
      None when the sheet has no institution column (the selector is not shown). */
  function InstansiOptions(frame: Frame): (opts: Option<seq<string>>)
    ensures opts.Some? <==> frame.schema.hasTerlapor
    ensures opts.Some? ==>
      |opts.value| >= 1 && opts.value[0] == AllInstansi && StrictlySorted(opts.value[1..]) &&
      forall v :: v in opts.value[1..] <==> exists i :: 0 <= i < |frame.rows| && frame.rows[i].terlapor == Some(v)
  {
    if frame.schema.hasTerlapor then
      var col := TerlaporColumn(frame.rows);
      assert |col| == |frame.rows| && forall i :: 0 <= i < |col| ==> col[i] == frame.rows[i].terlapor;
      var opts := [AllInstansi] + SortedDistinct(Present(col));
      assert opts[1..] == SortedDistinct(Present(col));
      assert forall v :: Some(v) in col <==> exists i :: 0 <= i < |frame.rows| && frame.rows[i].terlapor == Some(v) by {
        forall v ensures Some(v) in col <==> exists i :: 0 <= i < |frame.rows| && frame.rows[i].terlapor == Some(v) {
          if Some(v) in col {
            var i :| 0 <= i < |col| && col[i] == Some(v);
            assert frame.rows[i].terlapor == Some(v);
          }
        }
      }
      Some(opts)
    else None
  }

  /** The multi-selector's choices: the sentinel, then the distinct statuses in ascending order.
      None when the sheet has no status column. */
  function StatusOptions(frame: Frame): (opts: Option<seq<string>>)
    ensures opts.Some? <==> frame.schema.hasStatus
    ensures opts.Some? ==>
      |opts.value| >= 1 && opts.value[0] == AllStatus && StrictlySorted(opts.value[1..]) &&
      forall v :: v in opts.value[1..] <==> exists i :: 0 <= i < |frame.rows| && frame.rows[i].status == Some(v)
  {
    if frame.schema.hasStatus then
      var col := StatusColumn(frame.rows);
      assert |col| == |frame.rows| && forall i :: 0 <= i < |col| ==> col[i] == frame.rows[i].status;
      var opts := [AllStatus] + SortedDistinct(Present(col));
      assert opts[1..] == SortedDistinct(Present(col));
      assert forall v :: Some(v) in col <==> exists i :: 0 <= i < |frame.rows| && frame.rows[i].status == Some(v) by {
        forall v ensures Some(v) in col <==> exists i :: 0 <= i < |frame.rows| && frame.rows[i].status == Some(v) {
          if Some(v) in col {
            var i :| 0 <= i < |col| && col[i] == Some(v);
            assert frame.rows[i].status == Some(v);
          }
        }
      }
      Some(opts)
    else None
  }

  /** A row belongs to the chosen institution; an empty cell never does. */
  predicate FromInstansi(r: Record, selected: string)
  {
    r.terlapor == Some(selected)
  }

  /** Keeps the rows of the chosen institution, or all rows when the sentinel is chosen. */
  function FilterInstansi(rows: seq<Record>, selected: string): (kept: seq<Record>)
    ensures selected == AllInstansi ==> kept == rows
    ensures selected != AllInstansi ==>
      forall x :: multiset(kept)[x] == if FromInstansi(x, selected) then multiset(rows)[x] else 0
    ensures IsSubsequence(kept, rows)
  {
    if selected == AllInstansi then
      IsSubsequenceReflexive(rows);
      rows
    else
      var keep := r => FromInstansi(r, selected);
      FilterMultiplicity(keep, rows);
      FilterIsSubsequence(keep, rows);
      Filter(keep, rows)
  }

  /** The multi-selection restricts anything only without the sentinel and when non-empty. */
  predicate StatusFilterActive(selected: seq<string>)
  {
    AllStatus !in selected && |selected| > 0
  }

  /** A row's status is one of the chosen ones; an empty cell never is. */
  predicate HasSelectedStatus(r: Record, selected: seq<string>)
  {
    r.status.Some? && r.status.value in selected
  }

  /** Keeps the rows whose status was chosen, or all rows when the selection does not restrict. */
  function FilterStatus(rows: seq<Record>, selected: seq<string>): (kept: seq<Record>)
    ensures !StatusFilterActive(selected) ==> kept == rows
    ensures StatusFilterActive(selected) ==>
      forall x :: multiset(kept)[x] == if HasSelectedStatus(x, selected) then multiset(rows)[x] else 0
    ensures IsSubsequence(kept, rows)
  {
    if !StatusFilterActive(selected) then
      IsSubsequenceReflexive(rows);
      rows
    else
      var keep := r => HasSelectedStatus(r, selected);
      FilterMultiplicity(keep, rows);
      FilterIsSubsequence(keep, rows);
      Filter(keep, rows)
  }

  /** A row passes the active filters. */
  predicate Passes(schema: Schema, r: Record, instansi: string, status: seq<string>)
  {
    (schema.hasTerlapor && instansi != AllInstansi ==> FromInstansi(r, instansi)) &&
    (schema.hasStatus && StatusFilterActive(status) ==> HasSelectedStatus(r, status))
  }

  /** The filtered view: each filter applies only when the sheet has its column. The view
      keeps the columns and exactly the rows that pass every active filter, each with its
      multiplicity, in their original order. */
  function ApplyFilters(frame: Frame, instansi: string, status: seq<string>): (view: Frame)
    ensures view.schema == frame.schema
    ensures IsSubsequence(view.rows, frame.rows)
    ensures forall x :: multiset(view.rows)[x] ==
                        if Passes(frame.schema, x, instansi, status) then multiset(frame.rows)[x] else 0
  {
    var byInstansi := if frame.schema.hasTerlapor then FilterInstansi(frame.rows, instansi) else frame.rows;
    var byStatus := if frame.schema.hasStatus then FilterStatus(byInstansi, status) else byInstansi;
    IsSubsequenceReflexive(frame.rows);
    IsSubsequenceReflexive(byInstansi);
    SubsequenceTransitive(byStatus, byInstansi, frame.rows);
    Frame(frame.schema, byStatus)
  }

  /** Choosing one of the institutions the selector lists, with no status restriction,
      never leads to an empty view. */
  lemma OfferedInstansiIsNonEmpty(frame: Frame, instansi: string, status: seq<string>)
    requires frame.schema.hasTerlapor
    requires instansi in InstansiOptions(frame).value[1..]
    requires !(frame.schema.hasStatus && StatusFilterActive(status))
    ensures |ApplyFilters(frame, instansi, status).rows| > 0
  {
    var i :| 0 <= i < |frame.rows| && frame.rows[i].terlapor == Some(instansi);
    assert Passes(frame.schema, frame.rows[i], instansi, status);
    assert frame.rows[i] in multiset(frame.rows);
  }
}
