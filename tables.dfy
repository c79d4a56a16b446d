/**
 * Vocabulary shared by the two reconciliation passes between a source and a
 * target Jellyfin database: column values as SQLite returns them, the
 * `BaseItems` and `Users` rows, SQL equality, and the natural-key lookups
 * whose results are classified as no, one or several candidates.
 */
module Tables {

  datatype Option<+T> = None | Some(value: T)

  /** A column value: NULL (`None`) or an opaque text that is only compared and copied. */
  type Value = Option<string>

  /** SQL `=`: holds only when both sides are non-NULL and equal; NULL equals nothing, not even NULL. */
  predicate SqlEq(a: Value, b: Value) {
    a.Some? && b.Some? && a.value == b.value
  }

  /** The three timestamp columns of a `BaseItems` row. */
  datatype Dates = Dates(dateCreated: Value, dateModified: Value, dateLastMediaAdded: Value)

  /** The natural key of a media item, portable across databases: (Name, Type, Path). */
  datatype NaturalKey = NaturalKey(name: Value, itemType: Value, path: Value)

  /** A `BaseItems` row; `other` stands for every column neither pass reads or writes. */
  datatype Item = Item(id: Value, name: Value, itemType: Value, path: Value, dates: Dates, other: seq<Value>)
  {
    function Key(): NaturalKey { NaturalKey(name, itemType, path) }
  }

  /** A `Users` row; `other` stands for the columns neither pass reads. */
  datatype User = User(id: Value, username: Value, other: seq<Value>)

  /** `WHERE Name = ? AND Type = ? AND Path = ?`, all three compared with SQL `=`. */
  predicate KeyMatch(a: NaturalKey, b: NaturalKey) {
    SqlEq(a.name, b.name) && SqlEq(a.itemType, b.itemType) && SqlEq(a.path, b.path)
  }

  /** The rows of `s` a `SELECT ... WHERE p` returns with `fetchall()`, in scan order. */
  function Filter<T>(s: seq<T>, p: T -> bool): (r: seq<T>)
    ensures |r| <= |s|
    ensures forall i :: 0 <= i < |r| ==> r[i] in s && p(r[i])
    ensures forall i :: 0 <= i < |s| && p(s[i]) ==> s[i] in r
  {
    if s == [] then [] else (if p(s[0]) then [s[0]] else []) + Filter(s[1..], p)
  }

  /** The row a `SELECT ... WHERE p` returns with `fetchone()`: the first one in scan order, if any. */
  function First<T>(s: seq<T>, p: T -> bool): (r: Option<T>)
    ensures r.None? <==> forall i :: 0 <= i < |s| ==> !p(s[i])
    ensures r.Some? ==> exists i :: 0 <= i < |s| && s[i] == r.value && p(s[i]) && forall j :: 0 <= j < i ==> !p(s[j])
  {
    if s == [] then None
    else if p(s[0]) then Some(s[0])
    else
      var r := First(s[1..], p);
      assert r.Some? ==> exists i :: 0 < i < |s| && s[i] == r.value && p(s[i]) && forall j :: 0 <= j < i ==> !p(s[j]) by {
        if r.Some? {
          var k :| 0 <= k < |s[1..]| && s[1..][k] == r.value && p(s[1..][k]) && forall j :: 0 <= j < k ==> !p(s[1..][j]);
          forall j | 1 <= j < k + 1 ensures !p(s[j]) { assert s[j] == s[1..][j - 1]; }
          assert s[k + 1] == r.value && p(s[k + 1]);
        }
      }
      r
  }

  /** Position `i` holds the one and only row of `s` satisfying `p`. */
  ghost predicate OnlyMatchAt<T>(s: seq<T>, p: T -> bool, i: int) {
    0 <= i < |s| && p(s[i]) && forall j :: 0 <= j < |s| && p(s[j]) ==> j == i
  }

  /** A lookup has exactly one candidate exactly when one position matches, and that row is the candidate. */
  lemma {:induction false} FilterOne<T>(s: seq<T>, p: T -> bool)
    ensures |Filter(s, p)| == 1 <==> exists i :: OnlyMatchAt(s, p, i)
    ensures forall i :: OnlyMatchAt(s, p, i) ==> Filter(s, p) == [s[i]]
  {
    if s != [] {
      var t := s[1..];
      FilterOne(t, p);
      assert Filter(s, p) == (if p(s[0]) then [s[0]] else []) + Filter(t, p);
      forall i | 0 <= i < |t| ensures OnlyMatchAt(s, p, i + 1) <==> !p(s[0]) && OnlyMatchAt(t, p, i) {
        assert s[i + 1] == t[i];
        if OnlyMatchAt(s, p, i + 1) {
          forall j | 0 <= j < |t| && p(t[j]) ensures j == i { assert s[j + 1] == t[j]; }
        }
        if !p(s[0]) && OnlyMatchAt(t, p, i) {
          forall j | 0 <= j < |s| && p(s[j]) ensures j == i + 1 { assert j != 0; assert t[j - 1] == s[j]; }
        }
      }
      if p(s[0]) {
        // exactly one: the head itself, and nothing after it matches
        assert OnlyMatchAt(s, p, 0) <==> Filter(t, p) == [] by {
          if Filter(t, p) != [] {
            var x := Filter(t, p)[0];
            var k :| 0 <= k < |t| && t[k] == x;
            assert s[k + 1] == t[k];
          } else {
            forall j | 0 < j < |s| ensures !p(s[j]) { assert s[j] == t[j - 1]; }
          }
        }
        forall i | OnlyMatchAt(s, p, i) ensures i == 0 { }
      } else {
        forall i | OnlyMatchAt(s, p, i) ensures i >= 1 && OnlyMatchAt(t, p, i - 1) { }
        if exists i :: OnlyMatchAt(t, p, i) {
          var i :| OnlyMatchAt(t, p, i);
          assert OnlyMatchAt(s, p, i + 1);
        }
      }
    }
  }

  /** The positions of `s` whose rows satisfy `p`. */
  ghost function Matching<T>(s: seq<T>, p: T -> bool): set<int> {
    set i | 0 <= i < |s| && p(s[i])
  }

  /** A `WHERE` over a table split in two returns the rows of the first part, then those of the second. */
  lemma {:induction false} FilterAppend<T>(a: seq<T>, b: seq<T>, p: T -> bool)
    ensures Filter(a + b, p) == Filter(a, p) + Filter(b, p)
  {
    if a == [] {
      assert a + b == b;
    } else {
      var head := if p(a[0]) then [a[0]] else [];
      assert (a + b)[0] == a[0] && (a + b)[1..] == a[1..] + b;
      assert Filter(a + b, p) == head + Filter(a[1..] + b, p);
      FilterAppend(a[1..], b, p);
      assert head + (Filter(a[1..], p) + Filter(b, p)) == (head + Filter(a[1..], p)) + Filter(b, p);
    }
  }

  /** The matching positions of a table are those of all rows but its last, plus the last if it matches. */
  lemma MatchingSnoc<T>(s: seq<T>, p: T -> bool)
    requires s != []
    ensures |s| - 1 !in Matching(s[..|s| - 1], p)
    ensures Matching(s, p) == Matching(s[..|s| - 1], p) + (if p(s[|s| - 1]) then {|s| - 1} else {})
  {
    var n := |s| - 1;
    forall j | j in Matching(s, p) && j != n ensures j in Matching(s[..n], p) { assert s[..n][j] == s[j]; }
    forall j | j in Matching(s[..n], p) ensures j in Matching(s, p) { assert s[..n][j] == s[j]; }
  }

  /** `fetchall()` returns one row per matching position: the number of candidates is the number of matches. */
  lemma {:induction false} FilterCount<T>(s: seq<T>, p: T -> bool)
    ensures |Filter(s, p)| == |Matching(s, p)|
  {
    if s != [] {
      var n := |s| - 1;
      FilterCount(s[..n], p);
      FilterAppend(s[..n], [s[n]], p);
      assert s[..n] + [s[n]] == s;
      MatchingSnoc(s, p);
    }
  }

  /** Outcome of a natural-key lookup: no candidate, exactly one (found), or several (never guessed). */
  datatype Match<T> = Zero | One(found: T) | Many(count: nat)

  /** Classifies the candidates a lookup returned by their number; only a single candidate is ever used. */
  function Classify<T>(candidates: seq<T>): (m: Match<T>)
    ensures m.Zero? <==> candidates == []
    ensures m.One? <==> |candidates| == 1
    ensures m.One? ==> m.found == candidates[0]
    ensures m.Many? ==> m.count == |candidates| >= 2
  {
    if |candidates| == 0 then Zero
    else if |candidates| == 1 then One(candidates[0])
    else Many(|candidates|)
  }

  /** The `BaseItems` rows of `items` equal to `k` on Name, Type and Path. */
  function Candidates(items: seq<Item>, k: NaturalKey): (r: seq<Item>)
    ensures forall x :: x in r <==>
      x in items && k.name.Some? && k.itemType.Some? && k.path.Some? &&
      x.name == k.name && x.itemType == k.itemType && x.path == k.path
    ensures k.name.None? || k.itemType.None? || k.path.None? ==> r == []
  {
    var r := Filter(items, (x: Item) => KeyMatch(x.Key(), k));
    assert |r| > 0 ==> r[0] in r;
    r
  }

  /** The primary key of `BaseItems`: every row has an id and no two rows share one. */
  predicate PrimaryKey(rows: seq<Item>) {
    && (forall i :: 0 <= i < |rows| ==> rows[i].id.Some?)
    && (forall i, j :: 0 <= i < |rows| && 0 <= j < |rows| && i != j ==> rows[i].id != rows[j].id)
  }
}
