/**
 * The timestamp copy between two Jellyfin databases: every target
 * `BaseItems` row whose (Name, Type, Path) matches exactly one source row
 * takes that source row's DateCreated, DateModified and DateLastMediaAdded;
 * every other row, and every other column, is left as it was. The target
 * is updated in place inside one transaction that is committed once, after
 * the loop, or not at all when a storage error is raised.
 */
module CopyDates {
  import opened Tables

  /** What the pass reports for one target row. */
  datatype DateOutcome =
    | Updated(id: Value, dates: Dates)
    | NoMatch(id: Value)
    | Ambiguous(id: Value, count: nat)

  /** Source position `k` is the one and only source row equal to `t` on Name, Type and Path. */
  ghost predicate UniqueSourceAt(source: seq<Item>, t: Item, k: int) {
    OnlyMatchAt(source, (x: Item) => KeyMatch(x.Key(), t.Key()), k)
  }

  /**
   * Target row `t` after the pass: it keeps every column but the three
   * dates, and those are its own or the dates of a source row with its key.
   */
  function UpdatedRow(source: seq<Item>, t: Item): (r: Item)
    ensures SameExceptDates(r, t)
    ensures r.dates == t.dates || exists s :: s in source && KeyMatch(s.Key(), t.Key()) && r.dates == s.dates
  {
    match Classify(Candidates(source, t.Key()))
    case One(s) => t.(dates := s.dates)
    case _ => t
  }

  /**
   * The report line for target row `t`: it names the row and agrees with
   * what the pass writes to it; an update reports the dates of a source row
   * with the row's key.
   */
  function RowOutcome(source: seq<Item>, t: Item): (o: DateOutcome)
    ensures o.id == t.id
    ensures o.Updated? ==> UpdatedRow(source, t) == t.(dates := o.dates)
    ensures o.Updated? ==> exists s :: s in source && KeyMatch(s.Key(), t.Key()) && o.dates == s.dates
    ensures !o.Updated? ==> UpdatedRow(source, t) == t
    ensures o.Ambiguous? ==> o.count >= 2
  {
    match Classify(Candidates(source, t.Key()))
    case Zero => NoMatch(t.id)
    case One(s) => Updated(t.id, s.dates)
    case Many(n) =>
      assert Candidates(source, t.Key())[0] in Candidates(source, t.Key());
      Ambiguous(t.id, n)
  }

  /** `a` and `b` agree on every column except the three timestamps. */
  predicate SameExceptDates(a: Item, b: Item) {
    a.id == b.id && a.name == b.name && a.itemType == b.itemType && a.path == b.path && a.other == b.other
  }

  /** The target table after a committed pass: same rows, same order, only timestamps rewritten. */
  function DatePass(source: seq<Item>, rows: seq<Item>): (r: seq<Item>)
    ensures |r| == |rows|
    ensures forall i :: 0 <= i < |rows| ==> SameExceptDates(r[i], rows[i])
  {
    seq(|rows|, i requires 0 <= i < |rows| => UpdatedRow(source, rows[i]))
  }

  /** One report line per target row, in table order. */
  function DateReport(source: seq<Item>, rows: seq<Item>): (r: seq<DateOutcome>)
    ensures |r| == |rows|
    ensures forall i :: 0 <= i < |rows| ==> r[i].id == rows[i].id
  {
    seq(|rows|, i requires 0 <= i < |rows| => RowOutcome(source, rows[i]))
  }

  /** `UPDATE BaseItems SET <dates> WHERE id = ?`: every row whose id equals `id` under SQL `=`. */
  function UpdateWhereId(rows: seq<Item>, id: Value, d: Dates): (r: seq<Item>)
    ensures |r| == |rows|
    ensures forall j :: 0 <= j < |rows| ==> SameExceptDates(r[j], rows[j])
    ensures forall j :: 0 <= j < |rows| && !SqlEq(rows[j].id, id) ==> r[j] == rows[j]
    ensures forall j :: 0 <= j < |rows| && SqlEq(rows[j].id, id) ==> r[j].dates == d
    ensures id.None? ==> r == rows
  {
    seq(|rows|, j requires 0 <= j < |rows| => if SqlEq(rows[j].id, id) then rows[j].(dates := d) else rows[j])
  }

  /** Under the primary key, the UPDATE by the current row's id rewrites that row only. */
  lemma UpdateByIdWritesOneRow(rows: seq<Item>, i: nat, d: Dates)
    requires PrimaryKey(rows) && i < |rows|
    ensures UpdateWhereId(rows, rows[i].id, d) == rows[i := rows[i].(dates := d)]
  {
    forall j | 0 <= j < |rows| && j != i ensures !SqlEq(rows[j].id, rows[i].id) {
      assert rows[j].id != rows[i].id;
    }
  }

  /** A table whose ids are those of a primary-keyed one: rewriting row `i` is the UPDATE by its id. */
  lemma RowWriteIsUpdate(original: seq<Item>, current: seq<Item>, i: nat, d: Dates)
    requires PrimaryKey(original) && |current| == |original| && i < |current|
    requires forall j :: 0 <= j < |current| ==> current[j].id == original[j].id
    ensures current[i := current[i].(dates := d)] == UpdateWhereId(current, current[i].id, d)
  {
    assert PrimaryKey(current);
    UpdateByIdWritesOneRow(current, i, d);
  }

  /**
   * How many target rows were processed before the pass stopped: all of them,
   * or those before the row (or the commit, `k >= n`) at which a storage error is raised.
   */
  function Processed(fault: Option<nat>, n: nat): (p: nat)
    ensures p <= n
  {
    match fault
    case None => n
    case Some(k) => if k < n then k else n
  }

  /**
   * The body of the loop for target row `i`: look up its source candidates
   * and, with exactly one, `UPDATE` its three dates by its id.
   */
  method ProcessRow(source: seq<Item>, target: array<Item>, i: nat, ghost original: seq<Item>) returns (o: DateOutcome)
    requires i < target.Length && PrimaryKey(original) && |original| == target.Length
    requires forall j :: 0 <= j < target.Length ==> target[j].id == original[j].id
    modifies target
    ensures o == RowOutcome(source, old(target[i]))
    ensures target[..] == old(target[..])[i := UpdatedRow(source, old(target[i]))]
  {
    var t := target[i];
    var matches := Candidates(source, t.Key());
    if |matches| == 0 {
      o := NoMatch(t.id);
    } else if |matches| > 1 {
      o := Ambiguous(t.id, |matches|);
    } else {
      var s := matches[0];
      ghost var before := target[..];
      RowWriteIsUpdate(original, before, i, s.dates);
      target[i] := t.(dates := s.dates);
      assert target[..] == UpdateWhereId(before, t.id, s.dates);
      o := Updated(t.id, s.dates);
    }
  }

  /** Abandoning the transaction: every row goes back to its value before the pass. */
  method Restore(target: array<Item>, snapshot: seq<Item>)
    requires |snapshot| == target.Length
    modifies target
    ensures target[..] == snapshot
  {
    var j := 0;
    while j < target.Length
      invariant 0 <= j <= target.Length
      invariant forall m :: 0 <= m < j ==> target[m] == snapshot[m]
    {
      target[j] := snapshot[j];
      j := j + 1;
    }
  }

  /**
   * `update_date_created`: loops over the target rows, looks up the source
   * candidates of each, and rewrites the three timestamps of the row when
   * there is exactly one. `fault == Some(k)` says that a storage error is
   * raised on row `k` (or at the commit, when `k` is past the last row):
   * the rows already rewritten are rolled back and nothing is committed.
   */
  method UpdateDateCreated(source: seq<Item>, target: array<Item>, fault: Option<nat>)
    returns (report: seq<DateOutcome>, committed: bool)
    requires PrimaryKey(target[..])
    modifies target
    ensures committed <==> fault.None?
    ensures committed ==> target[..] == DatePass(source, old(target[..]))
    ensures !committed ==> target[..] == old(target[..])
    ensures report == DateReport(source, old(target[..]))[..Processed(fault, target.Length)]
  {
    var snapshot := target[..];
    report := [];
    var i := 0;
    while i < target.Length && fault != Some(i)
      invariant 0 <= i <= target.Length
      invariant fault.Some? ==> i <= fault.value
      invariant forall j :: 0 <= j < i ==> target[j] == UpdatedRow(source, snapshot[j])
      invariant forall j :: i <= j < target.Length ==> target[j] == snapshot[j]
      invariant forall j :: 0 <= j < target.Length ==> target[j].id == snapshot[j].id
      invariant report == DateReport(source, snapshot)[..i]
    {
      var o := ProcessRow(source, target, i, snapshot);
      report := report + [o];
      assert DateReport(source, snapshot)[..i + 1] == DateReport(source, snapshot)[..i] + [RowOutcome(source, snapshot[i])];
      i := i + 1;
    }
    if fault.Some? {
      Restore(target, snapshot);
      committed := false;
    } else {
      committed := true;
    }
  }

  // ---------------------------------------------------------------------
  // Properties of the pass

  /** With zero or several source candidates a target row is left entirely unchanged. */
  lemma NonUniqueLeavesRow(source: seq<Item>, rows: seq<Item>, i: nat)
    requires i < |rows| && |Candidates(source, rows[i].Key())| != 1
    ensures DatePass(source, rows)[i] == rows[i]
    ensures !DateReport(source, rows)[i].Updated?
  {
  }

  /** A NULL Name, Type or Path matches no source row, so such a row is never updated. */
  lemma NullKeyNeverUpdated(source: seq<Item>, rows: seq<Item>, i: nat)
    requires i < |rows| && (rows[i].name.None? || rows[i].itemType.None? || rows[i].path.None?)
    ensures DatePass(source, rows)[i] == rows[i]
    ensures DateReport(source, rows)[i] == NoMatch(rows[i].id)
  {
  }

  /**
   * A row is updated exactly when one source position matches it on all of
   * Name, Type and Path, and then it takes that source row's three dates.
   */
  lemma {:induction false} UpdatedIffUniqueSource(source: seq<Item>, rows: seq<Item>, i: nat)
    requires i < |rows|
    ensures DateReport(source, rows)[i].Updated? <==> exists k :: UniqueSourceAt(source, rows[i], k)
    ensures forall k :: UniqueSourceAt(source, rows[i], k) ==>
      DatePass(source, rows)[i] == rows[i].(dates := source[k].dates) &&
      DateReport(source, rows)[i] == Updated(rows[i].id, source[k].dates)
  {
    var p := (x: Item) => KeyMatch(x.Key(), rows[i].Key());
    FilterOne(source, p);
    forall k ensures UniqueSourceAt(source, rows[i], k) <==> OnlyMatchAt(source, p, k) { }
  }

  /**
   * A row is reported without a match exactly when no source position has
   * its key, and as ambiguous exactly when two or more do; the ambiguous
   * report carries that number.
   */
  lemma {:induction false} ReportCountsMatches(source: seq<Item>, rows: seq<Item>, i: nat)
    requires i < |rows|
    ensures
      var o := DateReport(source, rows)[i];
      var m := |Matching(source, (x: Item) => KeyMatch(x.Key(), rows[i].Key()))|;
      (o.NoMatch? <==> m == 0) && (o.Ambiguous? <==> m >= 2) && (o.Ambiguous? ==> o.count == m)
  {
    FilterCount(source, (x: Item) => KeyMatch(x.Key(), rows[i].Key()));
  }

  /** Ambiguity is judged on the source side only: target rows sharing a key all take the same dates. */
  lemma SharedKeySameDates(source: seq<Item>, rows: seq<Item>, i: nat, j: nat, s: Item)
    requires i < |rows| && j < |rows| && rows[i].Key() == rows[j].Key()
    requires Candidates(source, rows[i].Key()) == [s]
    ensures DatePass(source, rows)[i].dates == s.dates && DatePass(source, rows)[j].dates == s.dates
  {
  }

  /** Running the pass a second time on its own result changes nothing. */
  lemma {:induction false} DatePassIdempotent(source: seq<Item>, rows: seq<Item>)
    ensures DatePass(source, DatePass(source, rows)) == DatePass(source, rows)
  {
    var once := DatePass(source, rows);
    forall i | 0 <= i < |rows| ensures DatePass(source, once)[i] == once[i] {
      assert once[i].Key() == rows[i].Key();
    }
  }

  /** Each row's result depends only on that row: the pass distributes over any split of the table. */
  lemma {:induction false} DatePassSplits(source: seq<Item>, a: seq<Item>, b: seq<Item>)
    ensures DatePass(source, a + b) == DatePass(source, a) + DatePass(source, b)
    ensures DateReport(source, a + b) == DateReport(source, a) + DateReport(source, b)
  {
    assert forall i :: 0 <= i < |a| ==> (a + b)[i] == a[i];
    assert forall i :: |a| <= i < |a| + |b| ==> (a + b)[i] == b[i - |a|];
  }

  /** Scenario: a unique match overwrites the target's creation date with the source's. */
  lemma MovieScenario(created1: string, created2: string)
    requires created1 != created2
    ensures
      var key := NaturalKey(Some("Movie A"), Some("Movie"), Some("/m/a.mkv"));
      var src := Item(Some("s1"), key.name, key.itemType, key.path, Dates(Some(created1), None, None), []);
      var tgt := Item(Some("t1"), key.name, key.itemType, key.path, Dates(Some(created2), None, None), []);
      DatePass([src], [tgt])[0].dates.dateCreated == Some(created1)
  {
  }

  /** Scenario: two source rows with one key make the matching target row ambiguous and untouched. */
  lemma ShowScenario(d1: Dates, d2: Dates, d: Dates)
    ensures
      var key := NaturalKey(Some("Show"), Some("Series"), Some("/s"));
      var s1 := Item(Some("s1"), key.name, key.itemType, key.path, d1, []);
      var s2 := Item(Some("s2"), key.name, key.itemType, key.path, d2, []);
      var tgt := Item(Some("t1"), key.name, key.itemType, key.path, d, []);
      DatePass([s1, s2], [tgt]) == [tgt] && DateReport([s1, s2], [tgt]) == [Ambiguous(Some("t1"), 2)]
  {
    var key := NaturalKey(Some("Show"), Some("Series"), Some("/s"));
    var s1 := Item(Some("s1"), key.name, key.itemType, key.path, d1, []);
    var s2 := Item(Some("s2"), key.name, key.itemType, key.path, d2, []);
    assert Candidates([s1, s2], key) == [s1, s2];
  }
}
