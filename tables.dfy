/** A database table as the handlers see it through the ORM session: rows
    keyed by an auto-incremented primary key. `query(...).filter(...).all()`
    lists the matching rows in ascending key order and `.first()` takes the
    first of them. No table has a unique constraint besides its key. */
module Tables {
  import opened Http

  datatype Table<R> = Table(rows: map<nat, R>, nextId: nat)

  /** Every key was handed out by the key sequence, which starts at 1. */
  ghost predicate Valid<R>(t: Table<R>) {
    && t.nextId > 0
    && forall id :: id in t.rows ==> 0 < id < t.nextId
  }

  function Empty<R>(): (t: Table<R>)
    ensures Valid(t) && t.rows == map[]
  {
    Table(map[], 1)
  }

  predicate Ascending(ids: seq<nat>) {
    forall i, j :: 0 <= i < j < |ids| ==> ids[i] < ids[j]
  }

  /** The keys in [k, n) of the rows that satisfy p, in ascending order. */
  function WhereFrom<R>(rows: map<nat, R>, p: R -> bool, k: nat, n: nat): (ids: seq<nat>)
    decreases n - k
    ensures Ascending(ids)
    ensures forall i :: 0 <= i < |ids| ==> k <= ids[i] < n && ids[i] in rows && p(rows[ids[i]])
    ensures forall id :: k <= id < n && id in rows && p(rows[id]) ==> id in ids
  {
    if n <= k then []
    else
      var rest := WhereFrom(rows, p, k + 1, n);
      if k in rows && p(rows[k]) then [k] + rest else rest
  }

  /** `query(T).filter(p).all()`: the keys of the matching rows, in key order. */
  function Where<R>(t: Table<R>, p: R -> bool): (ids: seq<nat>)
    requires Valid(t)
    ensures Ascending(ids)
    ensures forall i :: 0 <= i < |ids| ==> ids[i] in t.rows && p(t.rows[ids[i]])
    ensures forall id :: id in t.rows && p(t.rows[id]) ==> id in ids
  {
    WhereFrom(t.rows, p, 0, t.nextId)
  }

  lemma {:induction false} WhereFromNone<R>(rows: map<nat, R>, p: R -> bool, k: nat, n: nat)
    requires forall id :: id in rows ==> !p(rows[id])
    ensures WhereFrom(rows, p, k, n) == []
    decreases n - k
  {
    if k < n {
      WhereFromNone(rows, p, k + 1, n);
    }
  }

  /** A query that no row matches lists nothing. */
  lemma WhereNone<R>(t: Table<R>, p: R -> bool)
    requires Valid(t) && forall id :: id in t.rows ==> !p(t.rows[id])
    ensures Where(t, p) == []
  {
    WhereFromNone(t.rows, p, 0, t.nextId);
  }

  /** The rows with the given keys, each paired with its key, in that order. */
  function Listing<R>(t: Table<R>, ids: seq<nat>): (rs: seq<(nat, R)>)
    requires forall i :: 0 <= i < |ids| ==> ids[i] in t.rows
    ensures |rs| == |ids| && forall i :: 0 <= i < |ids| ==> rs[i] == (ids[i], t.rows[ids[i]])
  {
    if ids == [] then [] else Listing(t, ids[..|ids| - 1]) + [(ids[|ids| - 1], t.rows[ids[|ids| - 1]])]
  }

  function Everything<R>(): R -> bool {
    _ => true
  }

  /** `query(T).all()`: every row once, with its key, in key order. */
  function All<R(==)>(t: Table<R>): (rs: seq<(nat, R)>)
    requires Valid(t)
    ensures forall i :: 0 <= i < |rs| ==> rs[i].0 in t.rows && rs[i].1 == t.rows[rs[i].0]
    ensures forall i, j :: 0 <= i < j < |rs| ==> rs[i].0 < rs[j].0
    ensures forall id :: id in t.rows ==> (id, t.rows[id]) in rs
  {
    var ids := Where(t, Everything());
    var rs := Listing(t, ids);
    assert forall id :: id in t.rows ==> (id, t.rows[id]) in rs by {
      forall id | id in t.rows ensures (id, t.rows[id]) in rs {
        var i :| 0 <= i < |ids| && ids[i] == id;
        assert rs[i] == (id, t.rows[id]);
      }
    }
    rs
  }

  /** `query(T).filter(p).first()`: the matching row with the smallest key. */
  function First<R>(t: Table<R>, p: R -> bool): (r: Option<nat>)
    requires Valid(t)
    ensures r.Some? ==> r.value in t.rows && p(t.rows[r.value])
    ensures r.Some? ==> forall id :: id in t.rows && id < r.value ==> !p(t.rows[id])
    ensures r.None? <==> forall id :: id in t.rows ==> !p(t.rows[id])
  {
    var ids := Where(t, p);
    if ids == [] then None
    else
      assert forall id :: id in t.rows && p(t.rows[id]) ==> ids[0] <= id by {
        forall id | id in t.rows && p(t.rows[id]) ensures ids[0] <= id {
          var i :| 0 <= i < |ids| && ids[i] == id;
        }
      }
      Some(ids[0])
  }

  /** `db.add(row)` followed by a commit: the row gets the next key. */
  function Insert<R>(t: Table<R>, r: R): (res: (Table<R>, nat))
    requires Valid(t)
    ensures Valid(res.0) && res.1 > 0 && res.1 !in t.rows
    ensures res.0.rows == t.rows[res.1 := r]
    ensures res.1 == t.nextId && res.0.nextId == t.nextId + 1
  {
    (Table(t.rows[t.nextId := r], t.nextId + 1), t.nextId)
  }

  /** Insert the rows one after the other; the keys they get, in order. */
  function InsertAll<R>(t: Table<R>, rs: seq<R>): (res: (Table<R>, seq<nat>))
    requires Valid(t)
    ensures Valid(res.0) && |res.1| == |rs|
    ensures res.0.nextId == t.nextId + |rs|
    ensures forall i :: 0 <= i < |rs| ==> res.1[i] == t.nextId + i
    ensures forall id :: id in res.0.rows <==> id in t.rows || t.nextId <= id < t.nextId + |rs|
    ensures forall id :: id in t.rows ==> res.0.rows[id] == t.rows[id]
    ensures forall i :: 0 <= i < |rs| ==> res.0.rows[t.nextId + i] == rs[i]
  {
    if rs == [] then (t, [])
    else
      var (t1, ids) := InsertAll(t, rs[..|rs| - 1]);
      var (t2, id) := Insert(t1, rs[|rs| - 1]);
      (t2, ids + [id])
  }

  /** Assigning to a loaded row and committing. */
  function Update<R>(t: Table<R>, id: nat, r: R): (t': Table<R>)
    requires Valid(t) && id in t.rows
    ensures Valid(t') && t'.nextId == t.nextId && t'.rows.Keys == t.rows.Keys
    ensures t'.rows[id] == r && forall k :: k in t.rows && k != id ==> t'.rows[k] == t.rows[k]
  {
    Table(t.rows[id := r], t.nextId)
  }

  /** Changing a row right after inserting it is inserting the changed row. */
  lemma UpdateInserted<R>(t: Table<R>, r: R, r': R)
    requires Valid(t)
    ensures Update(Insert(t, r).0, t.nextId, r') == Insert(t, r').0
  {
    assert Update(Insert(t, r).0, t.nextId, r').rows == Insert(t, r').0.rows;
  }

  /** `db.delete(row)` for each row in ids, then a commit. */
  function Delete<R>(t: Table<R>, ids: set<nat>): (t': Table<R>)
    requires Valid(t)
    ensures Valid(t') && t'.nextId == t.nextId
    ensures forall k :: k in t'.rows <==> k in t.rows && k !in ids
    ensures forall k :: k in t'.rows ==> t'.rows[k] == t.rows[k]
  {
    Table(t.rows - ids, t.nextId)
  }

  // ----- lemmas about the queries -----

  /** A newly inserted row comes last in every query it matches. */
  lemma {:induction false} WhereFromInsert<R>(rows: map<nat, R>, p: R -> bool, r: R, k: nat, n: nat)
    requires k <= n && n !in rows
    ensures WhereFrom(rows[n := r], p, k, n + 1) == WhereFrom(rows, p, k, n) + (if p(r) then [n] else [])
    decreases n - k
  {
    if k < n {
      WhereFromInsert(rows, p, r, k + 1, n);
    }
  }

  lemma WhereInsert<R>(t: Table<R>, p: R -> bool, r: R)
    requires Valid(t)
    ensures Where(Insert(t, r).0, p) == Where(t, p) + (if p(r) then [t.nextId] else [])
  {
    WhereFromInsert(t.rows, p, r, 0, t.nextId);
  }

  /** The number of matching rows grows by one exactly when the inserted row matches. */
  lemma CountAfterInsert<R>(t: Table<R>, p: R -> bool, r: R)
    requires Valid(t)
    ensures |Where(Insert(t, r).0, p)| == |Where(t, p)| + (if p(r) then 1 else 0)
  {
    WhereInsert(t, p, r);
  }

  /** Changing a row in a way that p cannot see leaves every p-query as it was. */
  lemma {:induction false} WhereFromUpdate<R>(rows: map<nat, R>, p: R -> bool, id: nat, r: R, k: nat, n: nat)
    requires id in rows && p(r) == p(rows[id])
    ensures WhereFrom(rows[id := r], p, k, n) == WhereFrom(rows, p, k, n)
    decreases n - k
  {
    if k < n {
      WhereFromUpdate(rows, p, id, r, k + 1, n);
    }
  }

  lemma FirstAfterUpdate<R>(t: Table<R>, p: R -> bool, id: nat, r: R)
    requires Valid(t) && id in t.rows && p(r) == p(t.rows[id])
    ensures First(Update(t, id, r), p) == First(t, p)
  {
    WhereFromUpdate(t.rows, p, id, r, 0, t.nextId);
  }

  /** The keys [a, a + n), in order. */
  function Range(a: nat, n: nat): (ks: seq<nat>)
    ensures |ks| == n && forall i :: 0 <= i < n ==> ks[i] == a + i
  {
    if n == 0 then [] else Range(a, n - 1) + [a + n - 1]
  }

  /** Inserting one more row after a batch is inserting the longer batch. */
  lemma InsertAllSnoc<R>(t: Table<R>, rs: seq<R>, r: R)
    requires Valid(t)
    ensures InsertAll(t, rs + [r]).0 == Insert(InsertAll(t, rs).0, r).0
  {
    assert (rs + [r])[..|rs|] == rs;
  }

  /** `db.add` of each row in turn, committed together. */
  method InsertEach<R>(t: Table<R>, rs: seq<R>) returns (t': Table<R>)
    requires Valid(t)
    ensures t' == InsertAll(t, rs).0
  {
    t' := t;
    for i := 0 to |rs|
      invariant t' == InsertAll(t, rs[..i]).0
    {
      InsertAllSnoc(t, rs[..i], rs[i]);
      assert rs[..i] + [rs[i]] == rs[..i + 1];
      t' := Insert(t', rs[i]).0;
    }
    assert rs[..|rs|] == rs;
  }

  lemma AppendAssociates<T>(a: seq<T>, b: seq<T>, c: seq<T>)
    ensures (a + b) + c == a + (b + c)
  {
  }

  /** Inserting rows that all match p appends their keys to every p-query. */
  lemma {:induction false} WhereInsertAllMatching<R>(t: Table<R>, p: R -> bool, rs: seq<R>)
    requires Valid(t) && forall i :: 0 <= i < |rs| ==> p(rs[i])
    ensures Where(InsertAll(t, rs).0, p) == Where(t, p) + Range(t.nextId, |rs|)
  {
    if rs == [] {
      assert Where(t, p) + Range(t.nextId, 0) == Where(t, p);
    } else {
      var n := |rs|;
      var init, last := rs[..n - 1], rs[n - 1];
      var t1 := InsertAll(t, init).0;
      var before, added := Where(t, p), Range(t.nextId, n - 1);
      assert InsertAll(t, rs).0 == Insert(t1, last).0;
      assert t1.nextId == t.nextId + (n - 1);
      assert Where(t1, p) == before + added by {
        assert forall i :: 0 <= i < |init| ==> p(init[i]);
        WhereInsertAllMatching(t, p, init);
      }
      assert Where(Insert(t1, last).0, p) == Where(t1, p) + [t1.nextId] by {
        WhereInsert(t1, p, last);
      }
      assert Range(t.nextId, n) == added + [t.nextId + n - 1];
      AppendAssociates(before, added, [t1.nextId]);
    }
  }

  /** Inserting rows none of which matches p leaves every p-query as it was. */
  lemma {:induction false} WhereInsertAllOthers<R>(t: Table<R>, p: R -> bool, rs: seq<R>)
    requires Valid(t) && forall i :: 0 <= i < |rs| ==> !p(rs[i])
    ensures Where(InsertAll(t, rs).0, p) == Where(t, p)
  {
    if rs != [] {
      var init := rs[..|rs| - 1];
      var t1 := InsertAll(t, init).0;
      assert InsertAll(t, rs).0 == Insert(t1, rs[|rs| - 1]).0;
      WhereInsertAllOthers(t, p, init);
      WhereInsert(t1, p, rs[|rs| - 1]);
    }
  }
}
