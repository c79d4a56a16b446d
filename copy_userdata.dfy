/**
 * The user-data transplant between two Jellyfin databases: every source
 * `UserData` row (watch state of one user for one item) is re-keyed to the
 * target's own user id (found by Username) and item id (found by Name,
 * Path and Type) and inserted into the target's `UserData` table. A record
 * whose user or item resolves to no target row or to several is skipped,
 * an insert that would repeat an existing (ItemId, UserId) pair is
 * rejected, and the loop always goes on with the next record. The inserts
 * are committed once, after the loop.
 */
module CopyUserData {
  import opened Tables

  /** A `UserData` row: the two owner ids and the eleven watch-state columns. */
  datatype UserData = UserData(
    itemId: Value, userId: Value,
    customDataKey: Value, audioStreamIndex: Value, isFavorite: Value, lastPlayedDate: Value,
    likes: Value, playCount: Value, playbackPositionTicks: Value, played: Value,
    rating: Value, subtitleStreamIndex: Value, retentionDate: Value)

  /** The source database's three tables, read once at the start. */
  datatype Source = Source(users: seq<User>, items: seq<Item>, userData: seq<UserData>)

  /** The target's `Users` and `BaseItems` tables, which the pass only reads. */
  datatype Target = Target(users: seq<User>, items: seq<Item>)

  /** Which owner of a record failed to resolve. */
  datatype Side = UserSide | ItemSide

  /** What the pass reports for one source record. */
  datatype Outcome =
    | Inserted(row: UserData)
    | SourceMissing(side: Side)
    | NoMatch(side: Side)
    | Ambiguous(side: Side, count: nat)
    | Duplicate(itemId: Value, userId: Value)
    | Failed

  /**
   * A storage error that no per-record handler catches: on opening the
   * connections and their cursors or on the initial `SELECT` (both
   * `FetchFails`), or on the commit (`CommitFails`).
   */
  datatype Fatal = NoFatal | FetchFails | CommitFails

  // ---------------------------------------------------------------------
  // Lookups

  /** `SELECT Username FROM Users WHERE Id = ?` on the source, `fetchone()`. */
  function SourceUser(src: Source, id: Value): (r: Option<User>)
    ensures r.Some? ==> r.value in src.users && SqlEq(r.value.id, id)
  {
    First(src.users, (u: User) => SqlEq(u.id, id))
  }

  /** `SELECT Id FROM Users WHERE Username = ?` on the target, `fetchall()`. */
  function TargetUsersNamed(tgt: Target, name: Value): (r: seq<User>)
    ensures forall u :: u in r <==> u in tgt.users && SqlEq(u.username, name)
  {
    Filter(tgt.users, (u: User) => SqlEq(u.username, name))
  }

  /** `SELECT Name, Path, Type FROM BaseItems WHERE Id = ?` on the source, `fetchone()`. */
  function SourceItem(src: Source, id: Value): (r: Option<Item>)
    ensures r.Some? ==> r.value in src.items && SqlEq(r.value.id, id)
  {
    First(src.items, (x: Item) => SqlEq(x.id, id))
  }

  /** `SELECT Id FROM BaseItems WHERE Name = ? AND Path = ? AND Type = ?` on the target. */
  function TargetItemsKeyed(tgt: Target, k: NaturalKey): (r: seq<Item>)
    ensures forall x :: x in r <==> x in tgt.items && KeyMatch(x.Key(), k)
  {
    Candidates(tgt.items, k)
  }

  /** An owner id resolved on the target side, or the reason the record is skipped. */
  datatype Resolution = Resolved(id: Value) | Skipped(reason: Outcome)

  /** Step 1: the source user's Username must name exactly one target user. */
  function ResolveUser(src: Source, tgt: Target, userId: Value): Resolution {
    match SourceUser(src, userId)
    case None => Skipped(SourceMissing(UserSide))
    case Some(u) =>
      match Classify(TargetUsersNamed(tgt, u.username))
      case Zero => Skipped(NoMatch(UserSide))
      case One(t) => Resolved(t.id)
      case Many(n) => Skipped(Ambiguous(UserSide, n))
  }

  /** Step 2: the source item's (Name, Path, Type) must match exactly one target item. */
  function ResolveItem(src: Source, tgt: Target, itemId: Value): Resolution {
    match SourceItem(src, itemId)
    case None => Skipped(SourceMissing(ItemSide))
    case Some(x) =>
      match Classify(TargetItemsKeyed(tgt, x.Key()))
      case Zero => Skipped(NoMatch(ItemSide))
      case One(t) => Resolved(t.id)
      case Many(n) => Skipped(Ambiguous(ItemSide, n))
  }

  /** Step 3: the row to insert, carrying the target's ids and the record's other columns. */
  function Remap(rec: UserData, itemId: Value, userId: Value): (r: UserData)
    ensures r.itemId == itemId && r.userId == userId && SameState(r, rec)
  {
    rec.(itemId := itemId, userId := userId)
  }

  /** `a` and `b` agree on the eleven columns that are copied verbatim. */
  predicate SameState(a: UserData, b: UserData) {
    && a.customDataKey == b.customDataKey && a.audioStreamIndex == b.audioStreamIndex
    && a.isFavorite == b.isFavorite && a.lastPlayedDate == b.lastPlayedDate && a.likes == b.likes
    && a.playCount == b.playCount && a.playbackPositionTicks == b.playbackPositionTicks
    && a.played == b.played && a.rating == b.rating
    && a.subtitleStreamIndex == b.subtitleStreamIndex && a.retentionDate == b.retentionDate
  }

  // ---------------------------------------------------------------------
  // The uniqueness constraint on (ItemId, UserId)

  /** Two rows collide on the unique key; as in SQLite, NULLs never collide. */
  predicate SameKey(a: UserData, b: UserData) {
    SqlEq(a.itemId, b.itemId) && SqlEq(a.userId, b.userId)
  }

  /** Inserting `r` into `rows` violates the uniqueness constraint. */
  predicate Conflicts(rows: seq<UserData>, r: UserData) {
    exists e :: e in rows && SameKey(e, r)
  }

  /** The uniqueness invariant of the target `UserData` table. */
  predicate KeysUnique(rows: seq<UserData>) {
    forall i, j :: 0 <= i < j < |rows| ==> !SameKey(rows[i], rows[j])
  }

  /** An insert the constraint admits keeps the table's keys unique. */
  lemma InsertKeepsKeysUnique(rows: seq<UserData>, r: UserData)
    requires KeysUnique(rows) && !Conflicts(rows, r)
    ensures KeysUnique(rows + [r])
  {
    forall i, j | 0 <= i < j < |rows + [r]| ensures !SameKey((rows + [r])[i], (rows + [r])[j]) {
      if j == |rows| {
        assert (rows + [r])[i] in rows;
      }
    }
  }

  // ---------------------------------------------------------------------
  // The pass as a specification

  /**
   * The outcome of one source record against the target rows `rows` as they
   * stand when it is reached; `fails` says that one of its statements raised
   * an error that the per-record handlers caught.
   */
  function RecordOutcome(src: Source, tgt: Target, rows: seq<UserData>, rec: UserData, fails: bool): (o: Outcome)
    ensures o.Inserted? ==> !Conflicts(rows, o.row) && SameState(o.row, rec)
    ensures o.Duplicate? ==> Conflicts(rows, Remap(rec, o.itemId, o.userId))
  {
    if fails then Failed
    else
      match ResolveUser(src, tgt, rec.userId)
      case Skipped(o) => o
      case Resolved(uid) =>
        match ResolveItem(src, tgt, rec.itemId)
        case Skipped(o) => o
        case Resolved(iid) =>
          var row := Remap(rec, iid, uid);
          if Conflicts(rows, row) then Duplicate(iid, uid) else Inserted(row)
  }

  /** The target rows after one outcome: an insert appends, everything else leaves them. */
  function Grow(rows: seq<UserData>, o: Outcome): seq<UserData> {
    if o.Inserted? then rows + [o.row] else rows
  }

  /** The target `UserData` rows and the report after a run over `records`. */
  datatype Run = Run(rows: seq<UserData>, report: seq<Outcome>)

  /** The run over `records`, record `k` failing exactly when `k in failing`, from target rows `rows`. */
  function Transplant(src: Source, tgt: Target, records: seq<UserData>, failing: set<nat>, rows: seq<UserData>): (run: Run)
    decreases |records|
    ensures |run.report| == |records|
  {
    if records == [] then Run(rows, [])
    else
      var n := |records| - 1;
      var prev := Transplant(src, tgt, records[..n], failing, rows);
      var o := RecordOutcome(src, tgt, prev.rows, records[n], n in failing);
      Run(Grow(prev.rows, o), prev.report + [o])
  }

  /** One more record extends the run on a prefix by that record's outcome. */
  lemma TransplantStep(src: Source, tgt: Target, records: seq<UserData>, failing: set<nat>, rows: seq<UserData>, i: nat)
    requires i < |records|
    ensures
      var prev := Transplant(src, tgt, records[..i], failing, rows);
      var o := RecordOutcome(src, tgt, prev.rows, records[i], i in failing);
      Transplant(src, tgt, records[..i + 1], failing, rows) == Run(Grow(prev.rows, o), prev.report + [o])
  {
    assert records[..i + 1][..i] == records[..i];
  }

  /** The rows the report says were inserted, in order. */
  function InsertedRows(report: seq<Outcome>): (r: seq<UserData>)
    ensures |r| <= |report|
  {
    if report == [] then []
    else InsertedRows(report[..|report| - 1]) + (if report[|report| - 1].Inserted? then [report[|report| - 1].row] else [])
  }

  // ---------------------------------------------------------------------
  // The target's UserData table inside one transaction

  /**
   * The target `UserData` table: `rows` is what the open connection sees,
   * `committed` what is stored; they differ only between the first insert
   * and the commit or rollback.
   */
  class UserDataTable {
    var rows: seq<UserData>
    var committed: seq<UserData>

    ghost predicate Valid()
      reads this
    {
      KeysUnique(rows) && KeysUnique(committed)
    }

    constructor (initial: seq<UserData>)
      requires KeysUnique(initial)
      ensures Valid() && rows == initial && committed == initial
    {
      rows := initial;
      committed := initial;
    }

    /** `INSERT INTO UserData ...`; rejected, leaving the table as it was, when the key already exists. */
    method Insert(r: UserData) returns (ok: bool)
      requires Valid()
      modifies this
      ensures Valid()
      ensures ok <==> !Conflicts(old(rows), r)
      ensures rows == (if ok then old(rows) + [r] else old(rows))
      ensures committed == old(committed)
    {
      var i := 0;
      while i < |rows| && !SameKey(rows[i], r)
        invariant 0 <= i <= |rows|
        invariant forall j :: 0 <= j < i ==> !SameKey(rows[j], r)
      {
        i := i + 1;
      }
      ok := i == |rows|;
      if ok {
        assert !Conflicts(rows, r) by {
          forall e | e in rows ensures !SameKey(e, r) {
            var j :| 0 <= j < |rows| && rows[j] == e;
          }
        }
        InsertKeepsKeysUnique(rows, r);
        rows := rows + [r];
      } else {
        assert rows[i] in rows;
      }
    }

    /** Makes the open transaction's rows the stored ones. */
    method Commit()
      requires Valid()
      modifies this
      ensures Valid() && committed == old(rows) && rows == old(rows)
    {
      committed := rows;
    }

    /** Discards the open transaction's rows. */
    method Rollback()
      requires Valid()
      modifies this
      ensures Valid() && rows == old(committed) && committed == old(committed)
    {
      rows := committed;
    }
  }

  /**
   * `copy_userdata`: for each source `UserData` record, resolves its user
   * and item on the target and inserts the re-keyed row. A record in
   * `failing` raises an error that its handler catches. `fatal` is a storage
   * error no handler catches; the process then exits with status 1
   * (`exitFailure`) without committing.
   */
  method CopyUserData(src: Source, tgt: Target, table: UserDataTable, failing: set<nat>, fatal: Fatal)
    returns (report: seq<Outcome>, exitFailure: bool)
    requires table.Valid() && table.rows == table.committed
    modifies table
    ensures table.Valid() && table.rows == table.committed
    ensures exitFailure <==> fatal != NoFatal
    ensures !exitFailure ==> table.committed == Transplant(src, tgt, src.userData, failing, old(table.rows)).rows
    ensures exitFailure ==> table.committed == old(table.committed)
    ensures report == if fatal == FetchFails then [] else Transplant(src, tgt, src.userData, failing, old(table.rows)).report
  {
    if fatal == FetchFails {
      return [], true;
    }
    var records := src.userData;
    ghost var start := table.rows;
    report := [];
    for i := 0 to |records|
      invariant table.Valid() && table.committed == start
      invariant Transplant(src, tgt, records[..i], failing, start) == Run(table.rows, report)
    {
      var rec := records[i];
      TransplantStep(src, tgt, records, failing, start, i);
      if i in failing {
        report := report + [Failed];
        continue;
      }
      // Step 1: the user
      var srcUser := SourceUser(src, rec.userId);
      if srcUser.None? {
        report := report + [SourceMissing(UserSide)];
        continue;
      }
      var targetUsers := TargetUsersNamed(tgt, srcUser.value.username);
      if |targetUsers| != 1 {
        report := report + [if |targetUsers| == 0 then NoMatch(UserSide) else Ambiguous(UserSide, |targetUsers|)];
        continue;
      }
      var targetUserId := targetUsers[0].id;
      assert ResolveUser(src, tgt, rec.userId) == Resolved(targetUserId);
      // Step 2: the item
      var srcItem := SourceItem(src, rec.itemId);
      if srcItem.None? {
        report := report + [SourceMissing(ItemSide)];
        continue;
      }
      var targetItems := TargetItemsKeyed(tgt, srcItem.value.Key());
      if |targetItems| != 1 {
        report := report + [if |targetItems| == 0 then NoMatch(ItemSide) else Ambiguous(ItemSide, |targetItems|)];
        continue;
      }
      var targetItemId := targetItems[0].id;
      assert ResolveItem(src, tgt, rec.itemId) == Resolved(targetItemId);
      // Step 3: the insert
      var row := Remap(rec, targetItemId, targetUserId);
      var ok := table.Insert(row);
      report := report + [if ok then Inserted(row) else Duplicate(targetItemId, targetUserId)];
    }
    assert records[..|records|] == records;
    if fatal == CommitFails {
      table.Rollback();
      return report, true;
    }
    table.Commit();
    exitFailure := false;
  }

  // ---------------------------------------------------------------------
  // Properties of one record

  /** Target position `k` holds the one and only target user with Username `name`. */
  ghost predicate UniqueTargetUser(tgt: Target, name: Value, k: int) {
    OnlyMatchAt(tgt.users, (u: User) => SqlEq(u.username, name), k)
  }

  /** Target position `k` holds the one and only target item equal to `key` on Name, Path and Type. */
  ghost predicate UniqueTargetItem(tgt: Target, key: NaturalKey, k: int) {
    OnlyMatchAt(tgt.items, (x: Item) => KeyMatch(x.Key(), key), k)
  }

  /**
   * Step 1 in full: a user id missing from the source `Users` skips the
   * record; otherwise it resolves exactly when one target user has the same
   * Username, and then to that user's id.
   */
  lemma {:induction false} ResolveUserIff(src: Source, tgt: Target, id: Value)
    ensures SourceUser(src, id).None? <==> forall i :: 0 <= i < |src.users| ==> !SqlEq(src.users[i].id, id)
    ensures SourceUser(src, id).None? ==> ResolveUser(src, tgt, id) == Skipped(SourceMissing(UserSide))
    ensures ResolveUser(src, tgt, id).Resolved? <==>
      SourceUser(src, id).Some? && exists k :: UniqueTargetUser(tgt, SourceUser(src, id).value.username, k)
    ensures forall k :: SourceUser(src, id).Some? && UniqueTargetUser(tgt, SourceUser(src, id).value.username, k) ==>
      ResolveUser(src, tgt, id) == Resolved(tgt.users[k].id)
    ensures ResolveUser(src, tgt, id).Skipped? ==>
      var reason := ResolveUser(src, tgt, id).reason;
      (reason.SourceMissing? || reason.NoMatch? || (reason.Ambiguous? && reason.count >= 2)) && reason.side == UserSide
  {
    var su := SourceUser(src, id);
    if su.Some? {
      var name := su.value.username;
      var p := (u: User) => SqlEq(u.username, name);
      FilterOne(tgt.users, p);
      assert TargetUsersNamed(tgt, name) == Filter(tgt.users, p);
      forall k ensures UniqueTargetUser(tgt, name, k) <==> OnlyMatchAt(tgt.users, p, k) { }
    }
  }

  /**
   * Step 2 in full: an item id missing from the source `BaseItems` skips the
   * record; otherwise it resolves exactly when one target item is equal on
   * Name, Path and Type, and then to that item's id.
   */
  lemma {:induction false} ResolveItemIff(src: Source, tgt: Target, id: Value)
    ensures SourceItem(src, id).None? <==> forall i :: 0 <= i < |src.items| ==> !SqlEq(src.items[i].id, id)
    ensures SourceItem(src, id).None? ==> ResolveItem(src, tgt, id) == Skipped(SourceMissing(ItemSide))
    ensures ResolveItem(src, tgt, id).Resolved? <==>
      SourceItem(src, id).Some? && exists k :: UniqueTargetItem(tgt, SourceItem(src, id).value.Key(), k)
    ensures forall k :: SourceItem(src, id).Some? && UniqueTargetItem(tgt, SourceItem(src, id).value.Key(), k) ==>
      ResolveItem(src, tgt, id) == Resolved(tgt.items[k].id)
    ensures ResolveItem(src, tgt, id).Skipped? ==>
      var reason := ResolveItem(src, tgt, id).reason;
      (reason.SourceMissing? || reason.NoMatch? || (reason.Ambiguous? && reason.count >= 2)) && reason.side == ItemSide
  {
    var si := SourceItem(src, id);
    if si.Some? {
      var key := si.value.Key();
      var p := (x: Item) => KeyMatch(x.Key(), key);
      FilterOne(tgt.items, p);
      assert TargetItemsKeyed(tgt, key) == Filter(tgt.items, p);
      forall k ensures UniqueTargetItem(tgt, key, k) <==> OnlyMatchAt(tgt.items, p, k) { }
    }
  }

  /** A resolved owner id is the id of a target row with the source owner's Username, or its key. */
  lemma ResolvedIdsAreTargetIds(src: Source, tgt: Target, rec: UserData)
    ensures ResolveUser(src, tgt, rec.userId).Resolved? ==>
      exists u :: u in tgt.users && u.id == ResolveUser(src, tgt, rec.userId).id &&
        SqlEq(u.username, SourceUser(src, rec.userId).value.username)
    ensures ResolveItem(src, tgt, rec.itemId).Resolved? ==>
      exists x :: x in tgt.items && x.id == ResolveItem(src, tgt, rec.itemId).id &&
        KeyMatch(x.Key(), SourceItem(src, rec.itemId).value.Key())
  {
    if ResolveUser(src, tgt, rec.userId).Resolved? {
      assert TargetUsersNamed(tgt, SourceUser(src, rec.userId).value.username)[0] in tgt.users;
    }
    if ResolveItem(src, tgt, rec.itemId).Resolved? {
      assert TargetItemsKeyed(tgt, SourceItem(src, rec.itemId).value.Key())[0] in tgt.items;
    }
  }

  /**
   * A record is inserted exactly when no handler caught an error, both
   * owners resolve uniquely and the re-keyed pair is not yet in the table;
   * the row inserted has the target's ids and the record's eleven other
   * columns verbatim. When both owners resolve but the pair exists, the
   * record is a duplicate and nothing is inserted.
   */
  lemma RecordOutcomeIff(src: Source, tgt: Target, rows: seq<UserData>, rec: UserData, fails: bool)
    ensures
      var o := RecordOutcome(src, tgt, rows, rec, fails);
      var user := ResolveUser(src, tgt, rec.userId);
      var item := ResolveItem(src, tgt, rec.itemId);
      && (o.Inserted? <==> !fails && user.Resolved? && item.Resolved? && !Conflicts(rows, Remap(rec, item.id, user.id)))
      && (o.Inserted? ==> o.row.itemId == item.id && o.row.userId == user.id && SameState(o.row, rec))
      && (!fails && user.Resolved? && item.Resolved? && Conflicts(rows, Remap(rec, item.id, user.id)) ==>
            o == Duplicate(item.id, user.id))
      && (!fails && user.Skipped? ==> o == user.reason)
      && (!fails && user.Resolved? && item.Skipped? ==> o == item.reason)
      && (o == Failed <==> fails)
  {
    ResolveUserIff(src, tgt, rec.userId);
    ResolveItemIff(src, tgt, rec.itemId);
  }

  /** A source record whose UserId has no source `Users` row inserts nothing. */
  lemma MissingSourceUserInsertsNothing(src: Source, tgt: Target, rows: seq<UserData>, rec: UserData, fails: bool)
    requires forall i :: 0 <= i < |src.users| ==> !SqlEq(src.users[i].id, rec.userId)
    ensures !RecordOutcome(src, tgt, rows, rec, fails).Inserted?
    ensures !fails ==> RecordOutcome(src, tgt, rows, rec, fails) == SourceMissing(UserSide)
  {
    ResolveUserIff(src, tgt, rec.userId);
  }

  /**
   * A record is inserted exactly when no handler caught an error, its
   * source user and item exist, one target user has the user's Username,
   * one target item has the item's (Name, Path, Type), and the pair of
   * their ids is new; the inserted row then carries exactly those ids.
   */
  lemma InsertedIffUniqueOwners(src: Source, tgt: Target, rows: seq<UserData>, rec: UserData, fails: bool)
    ensures RecordOutcome(src, tgt, rows, rec, fails).Inserted? <==>
      && !fails && SourceUser(src, rec.userId).Some? && SourceItem(src, rec.itemId).Some?
      && exists k, m ::
           && UniqueTargetUser(tgt, SourceUser(src, rec.userId).value.username, k)
           && UniqueTargetItem(tgt, SourceItem(src, rec.itemId).value.Key(), m)
           && !Conflicts(rows, Remap(rec, tgt.items[m].id, tgt.users[k].id))
    ensures forall k, m ::
      (&& !fails && SourceUser(src, rec.userId).Some? && SourceItem(src, rec.itemId).Some?
       && UniqueTargetUser(tgt, SourceUser(src, rec.userId).value.username, k)
       && UniqueTargetItem(tgt, SourceItem(src, rec.itemId).value.Key(), m)
       && !Conflicts(rows, Remap(rec, tgt.items[m].id, tgt.users[k].id))) ==>
      RecordOutcome(src, tgt, rows, rec, fails) == Inserted(Remap(rec, tgt.items[m].id, tgt.users[k].id))
  {
    ResolveUserIff(src, tgt, rec.userId);
    ResolveItemIff(src, tgt, rec.itemId);
    RecordOutcomeIff(src, tgt, rows, rec, fails);
    if RecordOutcome(src, tgt, rows, rec, fails).Inserted? {
      var k :| UniqueTargetUser(tgt, SourceUser(src, rec.userId).value.username, k);
      var m :| UniqueTargetItem(tgt, SourceItem(src, rec.itemId).value.Key(), m);
      assert !Conflicts(rows, Remap(rec, tgt.items[m].id, tgt.users[k].id));
    }
  }

  /**
   * Once the source user exists, the user side is `NoMatch` exactly when no
   * target user has its Username and `Ambiguous` exactly when two or more
   * do, with that number in the report.
   */
  lemma {:induction false} UserSkipCountsMatches(src: Source, tgt: Target, id: Value)
    ensures SourceUser(src, id).Some? ==>
      var r := ResolveUser(src, tgt, id);
      var m := |Matching(tgt.users, (u: User) => SqlEq(u.username, SourceUser(src, id).value.username))|;
      (r == Skipped(NoMatch(UserSide)) <==> m == 0) &&
      (r.Skipped? && r.reason.Ambiguous? <==> m >= 2) &&
      (r.Skipped? && r.reason.Ambiguous? ==> r.reason.count == m)
  {
    if SourceUser(src, id).Some? {
      FilterCount(tgt.users, (u: User) => SqlEq(u.username, SourceUser(src, id).value.username));
    }
  }

  /**
   * Once the source item exists, the item side is `NoMatch` exactly when no
   * target item has its (Name, Path, Type) and `Ambiguous` exactly when two
   * or more do, with that number in the report.
   */
  lemma {:induction false} ItemSkipCountsMatches(src: Source, tgt: Target, id: Value)
    ensures SourceItem(src, id).Some? ==>
      var r := ResolveItem(src, tgt, id);
      var m := |Matching(tgt.items, (x: Item) => KeyMatch(x.Key(), SourceItem(src, id).value.Key()))|;
      (r == Skipped(NoMatch(ItemSide)) <==> m == 0) &&
      (r.Skipped? && r.reason.Ambiguous? <==> m >= 2) &&
      (r.Skipped? && r.reason.Ambiguous? ==> r.reason.count == m)
  {
    if SourceItem(src, id).Some? {
      FilterCount(tgt.items, (x: Item) => KeyMatch(x.Key(), SourceItem(src, id).value.Key()));
    }
  }

  // ---------------------------------------------------------------------
  // Properties of the whole run

  /**
   * One report line per record; the existing rows are kept as they were
   * and in front, followed by exactly the inserted rows, so the table only
   * grows, by at most one row per record.
   */
  lemma {:induction false} TransplantShape(src: Source, tgt: Target, records: seq<UserData>, failing: set<nat>, rows: seq<UserData>)
    ensures
      var run := Transplant(src, tgt, records, failing, rows);
      && |run.report| == |records|
      && run.rows == rows + InsertedRows(run.report)
      && |run.rows| <= |rows| + |records|
      && run.rows[..|rows|] == rows
  {
    if records != [] {
      var n := |records| - 1;
      TransplantShape(src, tgt, records[..n], failing, rows);
      var prev := Transplant(src, tgt, records[..n], failing, rows);
      var run := Transplant(src, tgt, records, failing, rows);
      assert run.report[..n] == prev.report;
    }
  }

  /** The uniqueness invariant of the target `UserData` table holds after the run. */
  lemma {:induction false} TransplantKeepsKeysUnique(src: Source, tgt: Target, records: seq<UserData>, failing: set<nat>, rows: seq<UserData>)
    requires KeysUnique(rows)
    ensures KeysUnique(Transplant(src, tgt, records, failing, rows).rows)
  {
    if records != [] {
      var n := |records| - 1;
      TransplantKeepsKeysUnique(src, tgt, records[..n], failing, rows);
      var prev := Transplant(src, tgt, records[..n], failing, rows);
      var o := RecordOutcome(src, tgt, prev.rows, records[n], n in failing);
      if o.Inserted? {
        InsertKeepsKeysUnique(prev.rows, o.row);
      }
    }
  }

  /**
   * Records are independent: the outcome of record `k` is decided by that
   * record alone against the rows of the records before it, whatever
   * happened to them, and every record gets one.
   */
  lemma {:induction false} OutcomeAt(src: Source, tgt: Target, records: seq<UserData>, failing: set<nat>, rows: seq<UserData>, k: nat)
    requires k < |records|
    ensures
      var run := Transplant(src, tgt, records, failing, rows);
      |run.report| == |records| &&
      run.report[k] == RecordOutcome(src, tgt, Transplant(src, tgt, records[..k], failing, rows).rows, records[k], k in failing)
  {
    var n := |records| - 1;
    var prev := Transplant(src, tgt, records[..n], failing, rows);
    var o := RecordOutcome(src, tgt, prev.rows, records[n], n in failing);
    assert Transplant(src, tgt, records, failing, rows).report == prev.report + [o];
    if k < n {
      OutcomeAt(src, tgt, records[..n], failing, rows, k);
      assert records[..n][..k] == records[..k];
      assert records[..n][k] == records[k];
    } else {
      assert records[..k] == records[..n];
    }
  }

  /** The rows after a shorter prefix of the records are a prefix of the rows after a longer one. */
  lemma {:induction false} RowsGrowAlongRecords(src: Source, tgt: Target, records: seq<UserData>, failing: set<nat>, rows: seq<UserData>, a: nat, b: nat)
    requires a <= b <= |records|
    decreases b - a
    ensures
      var shorter := Transplant(src, tgt, records[..a], failing, rows).rows;
      var longer := Transplant(src, tgt, records[..b], failing, rows).rows;
      |shorter| <= |longer| && longer[..|shorter|] == shorter
  {
    if a < b {
      RowsGrowAlongRecords(src, tgt, records, failing, rows, a + 1, b);
      TransplantStep(src, tgt, records, failing, rows, a);
      var shorter := Transplant(src, tgt, records[..a], failing, rows).rows;
      var mid := Transplant(src, tgt, records[..a + 1], failing, rows).rows;
      assert |shorter| <= |mid| && mid[..|shorter|] == shorter;
    }
  }

  /** Conflicts persist as the table grows. */
  lemma ConflictsInPrefix(shorter: seq<UserData>, longer: seq<UserData>, r: UserData)
    requires |shorter| <= |longer| && longer[..|shorter|] == shorter
    requires Conflicts(shorter, r)
    ensures Conflicts(longer, r)
  {
    var e :| e in shorter && SameKey(e, r);
    var i :| 0 <= i < |shorter| && shorter[i] == e;
    assert longer[i] == e;
  }

  /** A row a record inserted is still in the table after any longer prefix of the records. */
  lemma InsertedRowStays(src: Source, tgt: Target, records: seq<UserData>, failing: set<nat>, rows: seq<UserData>, i: nat, b: nat, r: UserData)
    requires i < b <= |records|
    requires Transplant(src, tgt, records, failing, rows).report[i] == Inserted(r)
    ensures r in Transplant(src, tgt, records[..b], failing, rows).rows
  {
    OutcomeAt(src, tgt, records, failing, rows, i);
    TransplantStep(src, tgt, records, failing, rows, i);
    var afterI := Transplant(src, tgt, records[..i + 1], failing, rows).rows;
    assert afterI[|afterI| - 1] == r;
    RowsGrowAlongRecords(src, tgt, records, failing, rows, i + 1, b);
    var atB := Transplant(src, tgt, records[..b], failing, rows).rows;
    assert atB[|afterI| - 1] == r;
  }

  /**
   * The first record wins: once record `i` inserted a row, a later record
   * `j` that re-keys to the same non-NULL (ItemId, UserId) pair is rejected
   * as a duplicate, leaving that row as it was.
   */
  lemma FirstWins(src: Source, tgt: Target, records: seq<UserData>, failing: set<nat>, rows: seq<UserData>, i: nat, j: nat, r: UserData)
    requires i < j < |records| && j !in failing
    requires Transplant(src, tgt, records, failing, rows).report[i] == Inserted(r)
    requires r.itemId.Some? && r.userId.Some?
    requires ResolveUser(src, tgt, records[j].userId) == Resolved(r.userId)
    requires ResolveItem(src, tgt, records[j].itemId) == Resolved(r.itemId)
    ensures Transplant(src, tgt, records, failing, rows).report[j] == Duplicate(r.itemId, r.userId)
    ensures r in Transplant(src, tgt, records, failing, rows).rows
  {
    InsertedRowStays(src, tgt, records, failing, rows, i, j, r);
    InsertedRowStays(src, tgt, records, failing, rows, i, |records|, r);
    assert records[..|records|] == records;
    OutcomeAt(src, tgt, records, failing, rows, j);
    var beforeJ := Transplant(src, tgt, records[..j], failing, rows).rows;
    assert Conflicts(beforeJ, Remap(records[j], r.itemId, r.userId)) by {
      assert SameKey(r, Remap(records[j], r.itemId, r.userId));
    }
  }

  /** Every record that would be inserted already collides with a row of `base`. */
  ghost predicate Covered(src: Source, tgt: Target, records: seq<UserData>, failing: set<nat>, base: seq<UserData>) {
    forall k :: (0 <= k < |records| && k !in failing &&
                 ResolveUser(src, tgt, records[k].userId).Resolved? && ResolveItem(src, tgt, records[k].itemId).Resolved?) ==>
      Conflicts(base, Remap(records[k], ResolveItem(src, tgt, records[k].itemId).id, ResolveUser(src, tgt, records[k].userId).id))
  }

  /** A run whose every would-be insert collides inserts nothing. */
  lemma {:induction false} CoveredInsertsNothing(src: Source, tgt: Target, records: seq<UserData>, failing: set<nat>, base: seq<UserData>)
    requires Covered(src, tgt, records, failing, base)
    ensures
      var run := Transplant(src, tgt, records, failing, base);
      run.rows == base && |run.report| == |records| && forall k :: 0 <= k < |records| ==> !run.report[k].Inserted?
  {
    if records != [] {
      var n := |records| - 1;
      assert Covered(src, tgt, records[..n], failing, base) by {
        forall k | 0 <= k < n ensures records[..n][k] == records[k] { }
      }
      CoveredInsertsNothing(src, tgt, records[..n], failing, base);
    }
  }

  /** After a run every record of it collides with the resulting rows, when target ids are never NULL. */
  lemma FirstRunCovers(src: Source, tgt: Target, records: seq<UserData>, failing: set<nat>, rows: seq<UserData>, k: nat)
    requires forall u :: u in tgt.users ==> u.id.Some?
    requires forall x :: x in tgt.items ==> x.id.Some?
    requires k < |records| && k !in failing
    requires ResolveUser(src, tgt, records[k].userId).Resolved? && ResolveItem(src, tgt, records[k].itemId).Resolved?
    ensures Conflicts(Transplant(src, tgt, records, failing, rows).rows,
      Remap(records[k], ResolveItem(src, tgt, records[k].itemId).id, ResolveUser(src, tgt, records[k].userId).id))
  {
    var row := Remap(records[k], ResolveItem(src, tgt, records[k].itemId).id, ResolveUser(src, tgt, records[k].userId).id);
    ResolvedIdsAreTargetIds(src, tgt, records[k]);
    var final := Transplant(src, tgt, records, failing, rows).rows;
    var before := Transplant(src, tgt, records[..k], failing, rows).rows;
    var after := Transplant(src, tgt, records[..k + 1], failing, rows).rows;
    TransplantStep(src, tgt, records, failing, rows, k);
    assert records[..|records|] == records;
    if Conflicts(before, row) {
      RowsGrowAlongRecords(src, tgt, records, failing, rows, k, |records|);
      ConflictsInPrefix(before, final, row);
    } else {
      assert after == before + [row];
      assert Conflicts(after, row) by { assert row in after && SameKey(row, row); }
      RowsGrowAlongRecords(src, tgt, records, failing, rows, k + 1, |records|);
      ConflictsInPrefix(after, final, row);
    }
  }

  /**
   * Re-running the transplant on its own result inserts nothing and leaves
   * the table as the first run left it: every record is a duplicate, or is
   * skipped as before. This needs the target's user and item ids to be
   * non-NULL, since SQL uniqueness never sees two NULLs as equal. The
   * second run may catch errors on more records than the first
   * (`failing2`), never on fewer.
   */
  lemma SecondRunInsertsNothing(src: Source, tgt: Target, failing: set<nat>, failing2: set<nat>, rows: seq<UserData>)
    requires forall u :: u in tgt.users ==> u.id.Some?
    requires forall x :: x in tgt.items ==> x.id.Some?
    requires failing <= failing2
    ensures
      var first := Transplant(src, tgt, src.userData, failing, rows);
      var second := Transplant(src, tgt, src.userData, failing2, first.rows);
      second.rows == first.rows && |second.report| == |src.userData| &&
      forall k :: 0 <= k < |src.userData| ==> !second.report[k].Inserted?
  {
    var first := Transplant(src, tgt, src.userData, failing, rows);
    forall k | 0 <= k < |src.userData| && k !in failing2 &&
      ResolveUser(src, tgt, src.userData[k].userId).Resolved? && ResolveItem(src, tgt, src.userData[k].itemId).Resolved?
      ensures Conflicts(first.rows, Remap(src.userData[k], ResolveItem(src, tgt, src.userData[k].itemId).id,
                                           ResolveUser(src, tgt, src.userData[k].userId).id))
    {
      FirstRunCovers(src, tgt, src.userData, failing, rows, k);
    }
    CoveredInsertsNothing(src, tgt, src.userData, failing2, first.rows);
  }

  /** Scenario: a user unknown on the target makes the record `NoMatch(UserSide)`, inserting nothing. */
  lemma AliceScenario(rec: UserData, bob: User, rows: seq<UserData>)
    requires rec.userId == Some("u1") && bob.username == Some("bob")
    ensures
      var src := Source([User(Some("u1"), Some("alice"), [])], [], [rec]);
      var tgt := Target([bob], []);
      var run := Transplant(src, tgt, src.userData, {}, rows);
      run.report == [NoMatch(UserSide)] && run.rows == rows
  {
    var src := Source([User(Some("u1"), Some("alice"), [])], [], [rec]);
    assert [rec][..0] == [];
    assert SourceUser(src, rec.userId) == Some(src.users[0]);
  }
}
