/** The key figures shown above the charts, computed over the filtered view. */
module Metrics {
  import opened Wrappers
  import opened Seqs
  import opened Text
  import opened Records

  /** The two literal alternatives of the "closed" pattern, matched ignoring case. */
  const ClosedWords: seq<string> := ["Selesai", "Tutup"]

  /** A case is closed when its status mentions either word at some position, ignoring
      case; an empty cell is not closed. */
  function IsClosed(status: Option<string>): (closed: bool)
    ensures closed <==>
      status.Some? && exists w, i: nat :: w in ClosedWords && MatchesIgnoreCaseAt(w, status.value, i)
  {
    if status.None? then false
    else
      var s := status.value;
      ContainsIgnoreCaseIff(s, "Selesai");
      ContainsIgnoreCaseIff(s, "Tutup");
      assert "Selesai" in ClosedWords && "Tutup" in ClosedWords;
      assert forall w :: w in ClosedWords ==> w == "Selesai" || w == "Tutup";
      ContainsIgnoreCase(s, "Selesai") || ContainsIgnoreCase(s, "Tutup")
  }

  /** The row's case is closed. */
  predicate RowClosed(r: Record)
  {
    IsClosed(r.status)
  }

  /** The row's case is still in process (the negated mask). */
  predicate RowInProcess(r: Record)
  {
    !IsClosed(r.status)
  }

  /** Number of closed cases; 0 when the sheet has no status column. With the column it is
      0 exactly when no case is closed, and the total exactly when every case is. */
  function ClosedCount(frame: Frame): (n: nat)
    ensures n <= |frame.rows|
    ensures !frame.schema.hasStatus ==> n == 0
    ensures frame.schema.hasStatus ==>
      (n == 0 <==> forall i :: 0 <= i < |frame.rows| ==> !RowClosed(frame.rows[i])) &&
      (n == |frame.rows| <==> forall i :: 0 <= i < |frame.rows| ==> RowClosed(frame.rows[i]))
    ensures frame.schema.hasStatus ==>
      n == |Filter(RowClosed, frame.rows)| &&
      forall x :: multiset(Filter(RowClosed, frame.rows))[x] ==
                  if RowClosed(x) then multiset(frame.rows)[x] else 0
  {
    FilterSize(RowClosed, frame.rows);
    FilterMultiplicity(RowClosed, frame.rows);
    if frame.schema.hasStatus then |Filter(RowClosed, frame.rows)| else 0
  }

  /** Number of cases still in process; every case when the sheet has no status column.
      With the column it is 0 exactly when every case is closed, and the total exactly
      when none is. */
  function InProcessCount(frame: Frame): (n: nat)
    ensures n <= |frame.rows|
    ensures !frame.schema.hasStatus ==> n == |frame.rows|
    ensures frame.schema.hasStatus ==>
      (n == 0 <==> forall i :: 0 <= i < |frame.rows| ==> RowClosed(frame.rows[i])) &&
      (n == |frame.rows| <==> forall i :: 0 <= i < |frame.rows| ==> !RowClosed(frame.rows[i]))
    ensures frame.schema.hasStatus ==>
      n == |Filter(RowInProcess, frame.rows)| &&
      forall x :: multiset(Filter(RowInProcess, frame.rows))[x] ==
                  if RowInProcess(x) then multiset(frame.rows)[x] else 0
  {
    InProcessSelection(frame.rows);
    FilterMultiplicity(RowInProcess, frame.rows);
    if frame.schema.hasStatus then |Filter(RowInProcess, frame.rows)| else |frame.rows|
  }

  /** The in-process selection is empty exactly when every case is closed, and whole
      exactly when none is. */
  lemma InProcessSelection(rows: seq<Record>)
    ensures |Filter(RowInProcess, rows)| == 0 <==> forall i :: 0 <= i < |rows| ==> RowClosed(rows[i])
    ensures |Filter(RowInProcess, rows)| == |rows| <==> forall i :: 0 <= i < |rows| ==> !RowClosed(rows[i])
  {
    FilterSize(RowInProcess, rows);
    assert forall i :: 0 <= i < |rows| ==> (RowInProcess(rows[i]) <==> !RowClosed(rows[i]));
  }

  /** Every case is either closed or in process, never both. */
  lemma ClosedPlusInProcess(frame: Frame)
    ensures ClosedCount(frame) + InProcessCount(frame) == |frame.rows|
    ensures !frame.schema.hasStatus ==> ClosedCount(frame) == 0 && InProcessCount(frame) == |frame.rows|
  {
    FilterComplement(RowClosed, RowInProcess, frame.rows);
  }

  /** Some row carries the category `c`. */
  ghost predicate HasCategory(rows: seq<Record>, c: string)
  {
    exists i :: 0 <= i < |rows| && rows[i].maladministrasi == Some(c)
  }

  lemma HasCategoryCons(rows: seq<Record>, c: string)
    requires rows != []
    ensures HasCategory(rows, c) <==> rows[0].maladministrasi == Some(c) || HasCategory(rows[1..], c)
  {
    if HasCategory(rows, c) {
      var i :| 0 <= i < |rows| && rows[i].maladministrasi == Some(c);
      if i > 0 { assert rows[1..][i - 1] == rows[i]; }
    }
    if HasCategory(rows[1..], c) {
      var i :| 0 <= i < |rows[1..]| && rows[1..][i].maladministrasi == Some(c);
      assert rows[i + 1] == rows[1..][i];
    }
  }

  /** The distinct categories present in the rows. */
  function CategorySet(rows: seq<Record>): (cats: set<string>)
    ensures forall c :: c in cats <==> HasCategory(rows, c)
    ensures |cats| <= |rows|
  {
    if rows == [] then {}
    else
      var rest := CategorySet(rows[1..]);
      assert forall c :: HasCategory(rows, c) <==> rows[0].maladministrasi == Some(c) || c in rest by {
        forall c ensures HasCategory(rows, c) <==> rows[0].maladministrasi == Some(c) || c in rest {
          HasCategoryCons(rows, c);
        }
      }
      match rows[0].maladministrasi
      case None => rest
      case Some(c) => rest + {c}
  }

  /** Number of distinct non-empty categories; 0 when the sheet has no category column. */
  function DistinctCategories(frame: Frame): (n: nat)
    ensures n <= |frame.rows|
    ensures !frame.schema.hasMaladministrasi ==> n == 0
    ensures frame.schema.hasMaladministrasi ==>
      (n == 0 <==> forall i :: 0 <= i < |frame.rows| ==> frame.rows[i].maladministrasi.None?)
    ensures frame.schema.hasMaladministrasi ==>
      n == |set i | 0 <= i < |frame.rows| && frame.rows[i].maladministrasi.Some? :: frame.rows[i].maladministrasi.value|
  {
    if frame.schema.hasMaladministrasi then
      var cats := CategorySet(frame.rows);
      assert cats == set i | 0 <= i < |frame.rows| && frame.rows[i].maladministrasi.Some? :: frame.rows[i].maladministrasi.value;
      assert (exists i :: 0 <= i < |frame.rows| && frame.rows[i].maladministrasi.Some?) ==> cats != {} by {
        if exists i :: 0 <= i < |frame.rows| && frame.rows[i].maladministrasi.Some? {
          var i :| 0 <= i < |frame.rows| && frame.rows[i].maladministrasi.Some?;
          assert frame.rows[i].maladministrasi.value in cats;
        }
      }
      |cats|
    else 0
  }

  /** How many rows report the institution `v`: the multiplicity of `v` in the
      institution column, and at least one exactly when some row reports it. */
  function Occurrences(rows: seq<Record>, v: string): (n: nat)
    ensures n <= |rows|
    ensures n >= 1 <==> exists i :: 0 <= i < |rows| && rows[i].terlapor == Some(v)
    ensures n == multiset(TerlaporColumn(rows))[Some(v)]
  {
    var keep := (r: Record) => r.terlapor == Some(v);
    FilterSize(keep, rows);
    SelectionCountsColumn(keep, rows, v);
    |Filter(keep, rows)|
  }

  /** Selecting the rows that report `v` keeps as many rows as `v` occurs in the column. */
  lemma {:induction false} SelectionCountsColumn(keep: Record -> bool, rows: seq<Record>, v: string)
    requires forall r :: keep(r) == (r.terlapor == Some(v))
    ensures |Filter(keep, rows)| == multiset(TerlaporColumn(rows))[Some(v)]
  {
    if rows != [] {
      SelectionCountsColumn(keep, rows[1..], v);
      var col := TerlaporColumn(rows);
      assert col == [rows[0].terlapor] + TerlaporColumn(rows[1..]);
      assert multiset(col) == multiset{rows[0].terlapor} + multiset(TerlaporColumn(rows[1..]));
    }
  }

  /** An institution with the number of rows reporting it. */
  datatype Tally = Tally(entity: string, count: nat)

  /** One tally per distinct reported institution (missing cells dropped), in ascending order of name. */
  function ValueCounts(rows: seq<Record>): (ts: seq<Tally>)
    ensures forall i :: 0 <= i < |ts| ==> ts[i].count == Occurrences(rows, ts[i].entity)
    ensures forall v :: (exists i :: 0 <= i < |ts| && ts[i].entity == v) <==>
      exists j :: 0 <= j < |rows| && rows[j].terlapor == Some(v)
    ensures DistinctEntities(ts)
  {
    var col := TerlaporColumn(rows);
    assert |col| == |rows| && forall i :: 0 <= i < |col| ==> col[i] == rows[i].terlapor;
    var names := SortedDistinct(Present(col));
    StrictlySortedIsDistinct(names);
    assert forall v :: Some(v) in col <==> exists j :: 0 <= j < |rows| && rows[j].terlapor == Some(v) by {
      forall v ensures Some(v) in col <==> exists j :: 0 <= j < |rows| && rows[j].terlapor == Some(v) {
        if Some(v) in col {
          var j :| 0 <= j < |col| && col[j] == Some(v);
          assert rows[j].terlapor == Some(v);
        }
      }
    }
    var ts := seq(|names|, i requires 0 <= i < |names| => Tally(names[i], Occurrences(rows, names[i])));
    assert forall v :: (exists i :: 0 <= i < |ts| && ts[i].entity == v) <==> v in names by {
      forall v ensures (exists i :: 0 <= i < |ts| && ts[i].entity == v) <==> v in names {
        if v in names {
          var i :| 0 <= i < |names| && names[i] == v;
          assert ts[i].entity == v;
        }
      }
    }
    ts
  }

  /** The first position of a largest count. */
  function MaxIndex(ts: seq<Tally>): (m: nat)
    requires |ts| > 0
    ensures m < |ts|
    ensures forall i :: 0 <= i < |ts| ==> ts[i].count <= ts[m].count
    ensures forall i :: 0 <= i < m ==> ts[i].count < ts[m].count
  {
    if |ts| == 1 then 0
    else
      var m := MaxIndex(ts[1..]);
      if ts[0].count >= ts[m + 1].count then 0 else m + 1
  }

  /** `ts` without its element at position `m`. */
  function RemoveAt(ts: seq<Tally>, m: nat): (r: seq<Tally>)
    requires m < |ts|
    ensures |r| == |ts| - 1
    ensures forall i :: 0 <= i < |r| ==> r[i] == if i < m then ts[i] else ts[i + 1]
  {
    ts[..m] + ts[m + 1..]
  }

  lemma RemoveAtMembership(ts: seq<Tally>, m: nat)
    requires m < |ts|
    ensures forall t :: t in RemoveAt(ts, m) ==> t in ts
    ensures forall t :: t in ts && t != ts[m] ==> t in RemoveAt(ts, m)
  {
    var r := RemoveAt(ts, m);
    forall t | t in ts && t != ts[m] ensures t in r {
      var k :| 0 <= k < |ts| && ts[k] == t;
      if k < m { assert r[k] == t; } else { assert r[k - 1] == t; }
    }
  }

  /** The `n` tallies with the largest counts, largest first (`nlargest(n)`); which of several
      equal counts is taken first is not specified. */
  function TopN(ts: seq<Tally>, n: nat): (top: seq<Tally>)
    ensures |top| == if n < |ts| then n else |ts|
    decreases n
  {
    if n == 0 || |ts| == 0 then []
    else
      var m := MaxIndex(ts);
      [ts[m]] + TopN(RemoveAt(ts, m), n - 1)
  }

  ghost predicate NonIncreasing(top: seq<Tally>)
  {
    forall i, j :: 0 <= i < j < |top| ==> top[j].count <= top[i].count
  }

  ghost predicate DistinctEntities(ts: seq<Tally>)
  {
    forall i, j :: 0 <= i < j < |ts| ==> ts[i].entity != ts[j].entity
  }

  /** The selection takes its tallies from its input, and lists the largest count first. */
  lemma {:induction false} TopNFromInput(ts: seq<Tally>, n: nat)
    ensures forall t :: t in TopN(ts, n) ==> t in ts
    ensures NonIncreasing(TopN(ts, n))
    decreases n
  {
    if n > 0 && |ts| > 0 {
      var m := MaxIndex(ts);
      var others := RemoveAt(ts, m);
      var rest := TopN(others, n - 1);
      TopNFromInput(others, n - 1);
      RemoveAtMembership(ts, m);
      assert TopN(ts, n) == [ts[m]] + rest;
      forall i | 0 <= i < |rest| ensures rest[i].count <= ts[m].count {
        assert rest[i] in others;
      }
    }
  }

  /** No tally of `ts` outside `top` has a larger count than an entry of `top`. */
  ghost predicate LeavesNoLarger(ts: seq<Tally>, top: seq<Tally>)
  {
    forall t, i :: t in ts && t !in top && 0 <= i < |top| ==> t.count <= top[i].count
  }

  /** The selection leaves behind no tally with a larger count than one it took. */
  lemma {:induction false} TopNDominates(ts: seq<Tally>, n: nat)
    ensures LeavesNoLarger(ts, TopN(ts, n))
    decreases n
  {
    if n > 0 && |ts| > 0 {
      var m := MaxIndex(ts);
      var others := RemoveAt(ts, m);
      var rest := TopN(others, n - 1);
      var top := TopN(ts, n);
      assert top == [ts[m]] + rest;
      TopNDominates(others, n - 1);
      assert LeavesNoLarger(others, rest);
      RemoveAtMembership(ts, m);
      forall t: Tally, i | t in ts && t !in top && 0 <= i < |top| ensures t.count <= top[i].count {
        assert t in others && t !in rest;
        if i == 0 {
          var k :| 0 <= k < |ts| && ts[k] == t;
          assert ts[k].count <= ts[m].count;
        } else {
          assert top[i] == rest[i - 1];
          assert t.count <= rest[i - 1].count;
        }
      }
    }
  }

  /** Removing a tally keeps the institutions distinct and drops the removed one. */
  lemma RemoveAtDistinct(ts: seq<Tally>, m: nat)
    requires m < |ts| && DistinctEntities(ts)
    ensures DistinctEntities(RemoveAt(ts, m))
    ensures forall t :: t in RemoveAt(ts, m) ==> t.entity != ts[m].entity
  {
    var others := RemoveAt(ts, m);
    forall i, j | 0 <= i < j < |others| ensures others[i].entity != others[j].entity {
      var i' := if i < m then i else i + 1;
      var j' := if j < m then j else j + 1;
      assert others[i] == ts[i'] && others[j] == ts[j'];
    }
    forall t | t in others ensures t.entity != ts[m].entity {
      var q :| 0 <= q < |others| && others[q] == t;
      assert others[q] == ts[if q < m then q else q + 1];
    }
  }

  /** From tallies of distinct institutions the selection takes each institution at most once. */
  lemma {:induction false} TopNDistinct(ts: seq<Tally>, n: nat)
    requires DistinctEntities(ts)
    ensures DistinctEntities(TopN(ts, n))
    decreases n
  {
    if n > 0 && |ts| > 0 {
      var m := MaxIndex(ts);
      var others := RemoveAt(ts, m);
      var rest := TopN(others, n - 1);
      RemoveAtDistinct(ts, m);
      TopNDistinct(others, n - 1);
      TopNFromInput(others, n - 1);
      forall k | 0 <= k < |rest| ensures rest[k].entity != ts[m].entity {
        assert rest[k] in others;
      }
      assert TopN(ts, n) == [ts[m]] + rest;
    }
  }

  /** Tallies taken from the value counts carry their institution's exact, positive row count. */
  lemma TalliesAreExact(rows: seq<Record>, top: seq<Tally>)
    requires forall t :: t in top ==> t in ValueCounts(rows)
    ensures forall i :: 0 <= i < |top| ==>
      top[i].count == Occurrences(rows, top[i].entity) && top[i].count >= 1
  {
    var ts := ValueCounts(rows);
    forall i | 0 <= i < |top|
      ensures top[i].count == Occurrences(rows, top[i].entity) && top[i].count >= 1
    {
      assert top[i] in ts;
      var k :| 0 <= k < |ts| && ts[k] == top[i];
      var e := ts[k].entity;
      assert ts[k].count == Occurrences(rows, e);
      assert exists j :: 0 <= j < |rows| && rows[j].terlapor == Some(e);
    }
  }

  /** The five most reported institutions behind the bar chart: min(5, number of reported
      institutions) bars, each institution at most once, largest count first, each with its
      institution's exact, positive row count. */
  function TopTerlapor(rows: seq<Record>): (top: seq<Tally>)
    ensures |top| == if 5 < |ValueCounts(rows)| then 5 else |ValueCounts(rows)|
    ensures DistinctEntities(top) && NonIncreasing(top)
    ensures forall i :: 0 <= i < |top| ==>
      top[i].count == Occurrences(rows, top[i].entity) && top[i].count >= 1
  {
    var ts := ValueCounts(rows);
    var top := TopN(ts, 5);
    TopNFromInput(ts, 5);
    TopNDistinct(ts, 5);
    TalliesAreExact(rows, top);
    top
  }

  /** No reported institution left out of the chart has more rows than any bar. */
  lemma TopTerlaporDominates(rows: seq<Record>, v: string)
    requires exists j :: 0 <= j < |rows| && rows[j].terlapor == Some(v)
    requires forall k :: 0 <= k < |TopTerlapor(rows)| ==> TopTerlapor(rows)[k].entity != v
    ensures forall i :: 0 <= i < |TopTerlapor(rows)| ==> Occurrences(rows, v) <= TopTerlapor(rows)[i].count
  {
    var ts := ValueCounts(rows);
    var top := TopTerlapor(rows);
    TopNDominates(ts, 5);
    assert LeavesNoLarger(ts, top);
    var k :| 0 <= k < |ts| && ts[k].entity == v;
    var t := ts[k];
    assert t in ts;
    assert t !in top;
    assert t.count == Occurrences(rows, v);
    forall i | 0 <= i < |top| ensures Occurrences(rows, v) <= top[i].count {
      assert t.count <= top[i].count;
    }
  }

  /** An exact fraction `num / den`. */
  datatype Ratio = Ratio(num: nat, den: nat)

  /** The figures of the four metric cards and the bar chart. */
  datatype Kpis = Kpis(
    total: nat,
    closed: nat,
    inProcess: nat,
    categories: nat,
    completion: Ratio,              // closed / total * 100, before rounding to one decimal
    top: Option<seq<Tally>>         // None when the sheet has no institution column
  )

  /** The key figures of the filtered view; None when the view is empty, where the
      dashboard shows a notice instead of any figure. */
  function Summarize(view: Frame): (k: Option<Kpis>)
    ensures k.None? <==> |view.rows| == 0
  {
    if |view.rows| == 0 then None
    else
      var closed := ClosedCount(view);
      Some(Kpis(
        |view.rows|,
        closed,
        InProcessCount(view),
        DistinctCategories(view),
        Ratio(100 * closed, |view.rows|),
        if view.schema.hasTerlapor then Some(TopTerlapor(view.rows)) else None))
  }

  /** Each card shows its computed figure and the percentage is 100 * closed / total.
      Closed and in-process cases add up to the total, the percentage has a positive
      divisor and lies between 0 and 100, and each metric degrades to its default when
      its column is missing. */
  lemma SummarizeSpec(view: Frame)
    requires |view.rows| > 0
    ensures var k := Summarize(view).value;
      k.total == |view.rows| &&
      k.closed + k.inProcess == k.total &&
      (!view.schema.hasStatus ==> k.closed == 0 && k.inProcess == k.total) &&
      k.categories <= k.total &&
      (!view.schema.hasMaladministrasi ==> k.categories == 0) &&
      k.completion.den == k.total && k.completion.den > 0 &&
      k.completion.num <= 100 * k.completion.den &&
      (k.completion.num == 0 <==> k.closed == 0) &&
      (k.completion.num == 100 * k.completion.den <==> k.inProcess == 0) &&
      (k.top.Some? <==> view.schema.hasTerlapor) &&
      k.closed == ClosedCount(view) &&
      k.inProcess == InProcessCount(view) &&
      k.categories == DistinctCategories(view) &&
      k.completion == Ratio(100 * k.closed, k.total) &&
      (view.schema.hasTerlapor ==> k.top == Some(TopTerlapor(view.rows)))
  {
    ClosedPlusInProcess(view);
  }

  /** "Selesai" and "Tutup" are closing statuses, "Proses" is not. */
  lemma ExampleStatuses()
    ensures IsClosed(Some("Selesai")) && IsClosed(Some("Tutup")) && !IsClosed(Some("Proses"))
  {
    assert Lower("Selesai") == "selesai" && "selesai" <= "selesai";
    assert Lower("Tutup") == "tutup" && "tutup" <= "tutup";
    assert Lower("Proses") == "proses";
    assert "proses"[1..] == "roses" && "roses"[1..] == "oses" && "oses"[1..] == "ses";
    assert "ses"[1..] == "es" && "es"[1..] == "s" && "s"[1..] == "";
    assert !("selesai" <= "proses");
    assert !Contains("", "selesai") && !Contains("s", "selesai") && !Contains("es", "selesai");
    assert !Contains("ses", "selesai") && !Contains("oses", "selesai") && !Contains("roses", "selesai");
    assert !("tutup" <= "roses") by { assert "roses"[0] != "tutup"[0]; }
    assert !("tutup" <= "proses") by { assert "proses"[0] != "tutup"[0]; }
    assert !Contains("", "tutup") && !Contains("s", "tutup") && !Contains("es", "tutup");
    assert !Contains("ses", "tutup") && !Contains("oses", "tutup") && !Contains("roses", "tutup");
  }

  /** Three cases whose statuses are "Selesai", "Proses" and "Tutup". */
  const ExampleRows: seq<Record> := [
    Record(None, Some("Selesai"), None),
    Record(None, Some("Proses"), None),
    Record(None, Some("Tutup"), None)]

  lemma ExampleMasks()
    ensures Filter(RowClosed, ExampleRows) == [ExampleRows[0], ExampleRows[2]]
    ensures Filter(RowInProcess, ExampleRows) == [ExampleRows[1]]
  {
    var a, b, c := ExampleRows[0], ExampleRows[1], ExampleRows[2];
    ExampleStatuses();
    assert RowClosed(a) && !RowClosed(b) && RowClosed(c);
    assert ExampleRows[1..] == [b, c] && ExampleRows[1..][1..] == [c] && ExampleRows[1..][1..][1..] == [];
    assert Filter(RowClosed, [c]) == [c];
    assert Filter(RowClosed, [b, c]) == [c];
    assert Filter(RowInProcess, [c]) == [];
    assert Filter(RowInProcess, [b, c]) == [b];
  }

  /** Of the three example cases, two are closed and one is in process. */
  lemma ThreeCaseExample()
    ensures var k := Summarize(Frame(Schema(false, true, false), ExampleRows)).value;
      k.closed == 2 && k.inProcess == 1 && k.completion == Ratio(200, 3)
  {
    ExampleMasks();
  }
}
