/** The workout list of `App` as a value: lookup by id (`findIndex`), replacement and
    removal by `splice`, and the comparator sorts of `sortByMethod`. */
module Collection {
  import opened JsValues
  import opened Workouts

  predicate HasId(ws: seq<Workout>, id: nat) {
    exists i :: 0 <= i < |ws| && ws[i].id == id
  }

  /** `ws.findIndex((workout) => workout.id === id)`: the first index holding the id,
      or -1 when there is none. */
  function FindIndex(ws: seq<Workout>, id: nat): (r: int)
    ensures -1 <= r < |ws|
    ensures r == -1 <==> !HasId(ws, id)
    ensures 0 <= r ==> ws[r].id == id && forall j :: 0 <= j < r ==> ws[j].id != id
  {
    if |ws| == 0 then -1
    else if ws[0].id == id then 0
    else
      var r := FindIndex(ws[1..], id);
      assert HasId(ws, id) ==> HasId(ws[1..], id) by {
        if HasId(ws, id) {
          var i :| 0 <= i < |ws| && ws[i].id == id;
          assert ws[1..][i - 1].id == id;
        }
      }
      if r == -1 then -1 else r + 1
  }

  /** `splice(i, 1, ...items)` at an index inside the list. */
  lemma SpliceAt(ws: seq<Workout>, i: int, items: seq<Workout>)
    requires 0 <= i < |ws|
    ensures Splice(ws, i, 1, items) == ws[..i] + items + ws[i + 1..]
  {
  }

  /** `splice(-1, ...)` on a non-empty list acts at the last index. */
  lemma SpliceLast(ws: seq<Workout>, items: seq<Workout>)
    requires |ws| > 0
    ensures Splice(ws, -1, 1, items) == Splice(ws, |ws| - 1, 1, items)
  {
  }

  /** `splice(i, 1, w)` at an index inside the list replaces exactly that record. */
  lemma SpliceReplaces(ws: seq<Workout>, i: int, w: Workout)
    requires 0 <= i < |ws|
    ensures Splice(ws, i, 1, [w]) == ws[i := w]
    ensures forall x | x in ws[i := w] :: x in ws || x == w
  {
    SpliceAt(ws, i, [w]);
    assert ws[..i] + [w] + ws[i + 1..] == ws[i := w];
    forall x | x in ws[i := w] ensures x in ws || x == w {
      var k :| 0 <= k < |ws| && ws[i := w][k] == x;
      if k != i {
        assert ws[k] == x;
      }
    }
  }

  /** `ws.splice(ws.findIndex(...), 1, w)` as the edit submission does it: the first
      record with the id is replaced; with no such record, `splice(-1, 1, w)` replaces the
      last record, or appends to an empty list. */
  function ReplaceById(ws: seq<Workout>, id: nat, w: Workout): (r: seq<Workout>)
    ensures HasId(ws, id) ==> var i := FindIndex(ws, id); r == ws[i := w] && ws[i].id == id
    ensures !HasId(ws, id) ==> r == if |ws| == 0 then [w] else ws[|ws| - 1 := w]
    ensures |r| == if |ws| == 0 then 1 else |ws|
    ensures forall x | x in r :: x in ws || x == w
  {
    var i := FindIndex(ws, id);
    var r := Splice(ws, i, 1, [w]);
    if 0 <= i then
      SpliceReplaces(ws, i, w);
      r
    else if |ws| == 0 then
      r
    else
      SpliceLast(ws, [w]);
      SpliceReplaces(ws, |ws| - 1, w);
      r
  }

  /** `ws.splice(ws.findIndex(...), 1)` as the delete button does it: the first record
      with the id goes and the others keep their order; with no such record,
      `splice(-1, 1)` drops the last record. */
  function DeleteById(ws: seq<Workout>, id: nat): (r: seq<Workout>)
    ensures HasId(ws, id) ==> var i := FindIndex(ws, id);
      r == ws[..i] + ws[i + 1..] && ws[i].id == id && multiset(r) + multiset{ws[i]} == multiset(ws)
    ensures !HasId(ws, id) ==> r == if |ws| == 0 then [] else ws[..|ws| - 1]
    ensures |r| == if |ws| == 0 then 0 else |ws| - 1
    ensures forall x | x in r :: x in ws
  {
    var i := FindIndex(ws, id);
    var r := Splice(ws, i, 1, []);
    if 0 <= i then
      SpliceRemoves(ws, i);
      r
    else if |ws| == 0 then
      r
    else
      SpliceLast(ws, []);
      SpliceRemoves(ws, |ws| - 1);
      assert ws[|ws| - 1 + 1..] == [];
      r
  }

  /** `splice(i, 1)` at an index inside the list removes exactly that one record. */
  lemma SpliceRemoves(ws: seq<Workout>, i: int)
    requires 0 <= i < |ws|
    ensures Splice(ws, i, 1, []) == ws[..i] + ws[i + 1..]
    ensures multiset(ws[..i] + ws[i + 1..]) + multiset{ws[i]} == multiset(ws)
    ensures forall x | x in ws[..i] + ws[i + 1..] :: x in ws
  {
    SpliceAt(ws, i, []);
    assert ws[..i] + [] + ws[i + 1..] == ws[..i] + ws[i + 1..];
    assert ws == ws[..i] + [ws[i]] + ws[i + 1..];
    forall x | x in ws[..i] + ws[i + 1..] ensures x in ws {
      assert x in ws[..i] || x in ws[i + 1..];
    }
  }

  /** The keys `sortByMethod` knows. */
  datatype SortKey = ByTimeCreated | ByDistance | ByDuration

  /** The sort selector's values; any other string selects no sort. */
  function ParseSortKey(s: string): (k: Option<SortKey>)
    ensures k == Some(ByTimeCreated) <==> s == "time-created"
    ensures k == Some(ByDistance) <==> s == "distance"
    ensures k == Some(ByDuration) <==> s == "duration"
  {
    if s == "time-created" then Some(ByTimeCreated)
    else if s == "distance" then Some(ByDistance)
    else if s == "duration" then Some(ByDuration)
    else None
  }

  /** The number the comparator subtracts: `+w.id`, `w.distance` or `w.duration`. */
  function Key(w: Workout, k: SortKey): real {
    match k
    case ByTimeCreated => w.id as real
    case ByDistance => w.distance
    case ByDuration => w.duration
  }

  predicate SortedBy(ws: seq<Workout>, k: SortKey) {
    forall i, j :: 0 <= i < j < |ws| ==> Key(ws[i], k) <= Key(ws[j], k)
  }

  /** Puts `w` in front of the first record whose key is not smaller. */
  function Insert(w: Workout, ws: seq<Workout>, k: SortKey): (r: seq<Workout>)
    ensures multiset(r) == multiset(ws) + multiset{w}
  {
    if |ws| == 0 || Key(w, k) <= Key(ws[0], k) then [w] + ws
    else
      assert ws == [ws[0]] + ws[1..];
      [ws[0]] + Insert(w, ws[1..], k)
  }

  /** `ws.sort((a, b) => key(a) - key(b))`. Array.prototype.sort is stable, so the
      result is the stable ascending arrangement; insertion sort computes it. */
  function SortBy(ws: seq<Workout>, k: SortKey): (r: seq<Workout>)
    ensures multiset(r) == multiset(ws)
  {
    if |ws| == 0 then []
    else
      assert ws == [ws[0]] + ws[1..];
      Insert(ws[0], SortBy(ws[1..], k), k)
  }

  lemma {:induction false} InsertSorted(w: Workout, ws: seq<Workout>, k: SortKey)
    requires SortedBy(ws, k)
    ensures SortedBy(Insert(w, ws, k), k)
  {
    if |ws| > 0 && Key(w, k) > Key(ws[0], k) {
      InsertSorted(w, ws[1..], k);
      var rest := Insert(w, ws[1..], k);
      forall x | x in rest ensures Key(ws[0], k) <= Key(x, k) {
        assert x in multiset(rest);
      }
    }
  }

  /** The sorted list is ascending by the chosen key. */
  lemma {:induction false} SortBySorted(ws: seq<Workout>, k: SortKey)
    ensures SortedBy(SortBy(ws, k), k)
  {
    if |ws| > 0 {
      SortBySorted(ws[1..], k);
      InsertSorted(ws[0], SortBy(ws[1..], k), k);
    }
  }

  /** The records sharing one key value, in list order: the per-key subsequence in
      which stability of the sort is stated. */
  function WithKey(ws: seq<Workout>, k: SortKey, v: real): (r: seq<Workout>)
    ensures forall x | x in r :: x in ws && Key(x, k) == v
  {
    if |ws| == 0 then []
    else if Key(ws[0], k) == v then [ws[0]] + WithKey(ws[1..], k, v)
    else WithKey(ws[1..], k, v)
  }

  lemma {:induction false} InsertWithKey(w: Workout, ws: seq<Workout>, k: SortKey, v: real)
    ensures WithKey(Insert(w, ws, k), k, v)
         == if Key(w, k) == v then [w] + WithKey(ws, k, v) else WithKey(ws, k, v)
  {
    if |ws| > 0 && Key(w, k) > Key(ws[0], k) {
      InsertWithKey(w, ws[1..], k, v);
      assert Insert(w, ws, k) == [ws[0]] + Insert(w, ws[1..], k);
    } else {
      assert Insert(w, ws, k) == [w] + ws;
      assert ([w] + ws)[1..] == ws;
    }
  }

  /** The sort is stable: records with equal keys keep their relative order. */
  lemma {:induction false} SortByStable(ws: seq<Workout>, k: SortKey, v: real)
    ensures WithKey(SortBy(ws, k), k, v) == WithKey(ws, k, v)
  {
    if |ws| > 0 {
      SortByStable(ws[1..], k, v);
      InsertWithKey(ws[0], SortBy(ws[1..], k), k, v);
    }
  }

  lemma SortedKeysFromFirst(ws: seq<Workout>, k: SortKey, x: Workout)
    requires SortedBy(ws, k) && x in ws
    ensures Key(ws[0], k) <= Key(x, k)
  {
    var j :| 0 <= j < |ws| && ws[j] == x;
    if j > 0 { assert Key(ws[0], k) <= Key(ws[j], k); }
  }

  lemma WithKeyOfHead(ws: seq<Workout>, k: SortKey)
    requires |ws| > 0
    ensures WithKey(ws, k, Key(ws[0], k)) != []
  {
  }

  /** A stable sort has only one possible result: two ascending lists with the same
      records under every key value are equal. So SortBy agrees with any stable
      implementation of Array.prototype.sort. */
  lemma {:induction false} StableSortUnique(a: seq<Workout>, b: seq<Workout>, k: SortKey)
    requires SortedBy(a, k) && SortedBy(b, k)
    requires forall v :: WithKey(a, k, v) == WithKey(b, k, v)
    ensures a == b
    decreases |a|
  {
    if |a| == 0 && |b| == 0 {
    } else if |a| == 0 {
      WithKeyOfHead(b, k);
      assert false;
    } else if |b| == 0 {
      WithKeyOfHead(a, k);
      assert false;
    } else {
      var u, w := Key(a[0], k), Key(b[0], k);
      assert WithKey(a, k, u)[0] == a[0];
      assert WithKey(b, k, w)[0] == b[0];
      var x := WithKey(b, k, u)[0];
      assert x in WithKey(b, k, u);
      SortedKeysFromFirst(b, k, x);
      var y := WithKey(a, k, w)[0];
      assert y in WithKey(a, k, w);
      SortedKeysFromFirst(a, k, y);
      assert u == w;
      assert a[0] == b[0];
      forall v ensures WithKey(a[1..], k, v) == WithKey(b[1..], k, v) {
        assert WithKey(a, k, v) == WithKey(b, k, v);
        if Key(a[0], k) == v {
          assert WithKey(a, k, v)[1..] == WithKey(a[1..], k, v);
          assert WithKey(b, k, v)[1..] == WithKey(b[1..], k, v);
        }
      }
      StableSortUnique(a[1..], b[1..], k);
      assert a == [a[0]] + a[1..];
      assert b == [b[0]] + b[1..];
    }
  }

  /** Every stable ascending arrangement of a list is the one SortBy computes. */
  lemma SortByIsTheStableSort(ws: seq<Workout>, r: seq<Workout>, k: SortKey)
    requires SortedBy(r, k)
    requires forall v :: WithKey(r, k, v) == WithKey(ws, k, v)
    ensures r == SortBy(ws, k)
  {
    SortBySorted(ws, k);
    forall v ensures WithKey(r, k, v) == WithKey(SortBy(ws, k), k, v) {
      SortByStable(ws, k, v);
    }
    StableSortUnique(r, SortBy(ws, k), k);
  }

  predicate DistinctIds(ws: seq<Workout>) {
    forall i, j :: 0 <= i < j < |ws| ==> ws[i].id != ws[j].id
  }

  /** Putting a record whose id is new in front of a list with distinct ids keeps
      them distinct. */
  lemma ConsDistinct(x: Workout, ws: seq<Workout>)
    requires DistinctIds(ws)
    requires forall y | y in ws :: y.id != x.id
    ensures DistinctIds([x] + ws)
  {
    var r := [x] + ws;
    forall i, j | 0 <= i < j < |r| ensures r[i].id != r[j].id {
      if i == 0 {
        assert r[j] in ws;
      } else {
        assert r[i] == ws[i - 1] && r[j] == ws[j - 1];
      }
    }
  }

  /** In a list with distinct ids, no later record shares the first one's id. */
  lemma HeadIdFresh(ws: seq<Workout>)
    requires DistinctIds(ws) && |ws| > 0
    ensures DistinctIds(ws[1..])
    ensures forall y | y in ws[1..] :: y.id != ws[0].id
  {
    forall y | y in ws[1..] ensures y.id != ws[0].id {
      var m :| 0 <= m < |ws[1..]| && ws[1..][m] == y;
      assert ws[m + 1] == y;
    }
  }

  lemma {:induction false} InsertDistinct(w: Workout, ws: seq<Workout>, k: SortKey)
    requires DistinctIds(ws)
    requires forall x | x in ws :: x.id != w.id
    ensures DistinctIds(Insert(w, ws, k))
  {
    if |ws| > 0 && Key(w, k) > Key(ws[0], k) {
      HeadIdFresh(ws);
      assert ws[0] in ws;
      InsertDistinct(w, ws[1..], k);
      var rest := Insert(w, ws[1..], k);
      forall x | x in rest ensures x.id != ws[0].id {
        assert x in multiset(rest);
        assert x in ws[1..] || x == w;
      }
      ConsDistinct(ws[0], rest);
    } else {
      ConsDistinct(w, ws);
    }
  }

  lemma {:induction false} SortByDistinct(ws: seq<Workout>, k: SortKey)
    requires DistinctIds(ws)
    ensures DistinctIds(SortBy(ws, k))
  {
    if |ws| > 0 {
      var rest := SortBy(ws[1..], k);
      HeadIdFresh(ws);
      SortByDistinct(ws[1..], k);
      forall x | x in rest ensures x.id != ws[0].id {
        assert x in multiset(rest);
      }
      InsertDistinct(ws[0], rest, k);
    }
  }

  /** Appending a record whose id is new keeps ids distinct. */
  lemma AppendDistinct(ws: seq<Workout>, w: Workout)
    requires DistinctIds(ws)
    requires forall x | x in ws :: x.id != w.id
    ensures DistinctIds(ws + [w])
  {
    var r := ws + [w];
    forall a, b | 0 <= a < b < |r| ensures r[a].id != r[b].id {
      assert r[a] == ws[a];
      if b < |ws| {
        assert r[b] == ws[b];
      } else {
        assert ws[a] in ws;
      }
    }
  }

  /** Putting a record in place of the one with its id keeps ids distinct. So does the
      case with no such record, where `splice(-1, 1, w)` overwrites the last record:
      the id is then in no other record. */
  lemma ReplaceByIdDistinct(ws: seq<Workout>, id: nat, w: Workout)
    requires DistinctIds(ws) && w.id == id
    ensures DistinctIds(ReplaceById(ws, id, w))
  {
    if |ws| > 0 {
      var i := if HasId(ws, id) then FindIndex(ws, id) else |ws| - 1;
      var r := ReplaceById(ws, id, w);
      assert r == ws[i := w];
      forall a, b | 0 <= a < b < |r| ensures r[a].id != r[b].id {
        var other := if a == i then b else a;
        if a != i && b != i {
          assert r[a] == ws[a] && r[b] == ws[b];
        } else if HasId(ws, id) {
          assert ws[i].id == id && r[other] == ws[other];
        } else {
          assert r[other] == ws[other] && ws[other].id != id;
        }
      }
    }
  }

  /** Cutting one record out of a list with distinct ids keeps them distinct. */
  lemma RemoveAtDistinct(ws: seq<Workout>, i: int)
    requires DistinctIds(ws) && 0 <= i < |ws|
    ensures DistinctIds(ws[..i] + ws[i + 1..])
  {
    var r := ws[..i] + ws[i + 1..];
    forall a, b | 0 <= a < b < |r| ensures r[a].id != r[b].id {
      var a' := if a < i then a else a + 1;
      var b' := if b < i then b else b + 1;
      assert r[a] == ws[a'] && r[b] == ws[b'];
    }
  }

  /** Removing a record keeps ids distinct: what is left is a subsequence. */
  lemma DeleteByIdDistinct(ws: seq<Workout>, id: nat)
    requires DistinctIds(ws)
    ensures DistinctIds(DeleteById(ws, id))
  {
    if |ws| > 0 {
      var i := if HasId(ws, id) then FindIndex(ws, id) else |ws| - 1;
      assert ws[|ws| - 1 + 1..] == [];
      assert DeleteById(ws, id) == ws[..i] + ws[i + 1..];
      RemoveAtDistinct(ws, i);
    }
  }

  /** Lists with equal heads and equal multisets have equal multisets of tails. */
  lemma SameHeadSameTail(a: seq<Workout>, b: seq<Workout>)
    requires |a| > 0 && |b| > 0 && a[0] == b[0] && multiset(a) == multiset(b)
    ensures multiset(a[1..]) == multiset(b[1..])
  {
    assert a == [a[0]] + a[1..];
    assert b == [b[0]] + b[1..];
    forall e ensures multiset(a[1..])[e] == multiset(b[1..])[e] {
      assert (multiset{a[0]} + multiset(a[1..]))[e] == (multiset{b[0]} + multiset(b[1..]))[e];
    }
  }

  /** Two id-ascending lists holding the same records, one of them with distinct ids,
      are equal. */
  lemma {:induction false} SortedByIdUnique(a: seq<Workout>, b: seq<Workout>)
    requires multiset(a) == multiset(b)
    requires SortedBy(a, ByTimeCreated) && SortedBy(b, ByTimeCreated)
    requires DistinctIds(a)
    ensures a == b
    decreases |a|
  {
    assert |a| == |multiset(a)| == |multiset(b)| == |b|;
    if |a| > 0 {
      assert a[0] in multiset(b);
      assert b[0] in multiset(a);
      SortedKeysFromFirst(b, ByTimeCreated, a[0]);
      SortedKeysFromFirst(a, ByTimeCreated, b[0]);
      assert b[0].id == a[0].id;
      var i :| 0 <= i < |a| && a[i] == b[0];
      assert i == 0;
      assert a[0] == b[0];
      SameHeadSameTail(a, b);
      SortedByIdUnique(a[1..], b[1..]);
      assert a == [a[0]] + a[1..];
      assert b == [b[0]] + b[1..];
    }
  }

  /** Records keep no sort order of their own: with distinct ids, re-sorting by id a
      list that was sorted by any key gives the list sorted by id. This is what
      loading a saved list does. */
  lemma ResortByIdForgetsKey(ws: seq<Workout>, k: SortKey)
    requires DistinctIds(ws)
    ensures SortBy(SortBy(ws, k), ByTimeCreated) == SortBy(ws, ByTimeCreated)
  {
    var a := SortBy(ws, ByTimeCreated);
    var b := SortBy(SortBy(ws, k), ByTimeCreated);
    SortByDistinct(ws, ByTimeCreated);
    SortBySorted(ws, ByTimeCreated);
    SortBySorted(SortBy(ws, k), ByTimeCreated);
    SortedByIdUnique(a, b);
  }

  /** Sorting keeps every record well formed. */
  lemma SortKeepsWellFormed(ws: seq<Workout>, k: SortKey)
    requires AllWellFormed(ws)
    ensures AllWellFormed(SortBy(ws, k))
  {
    forall x | x in SortBy(ws, k) ensures WellFormed(x) {
      assert x in multiset(SortBy(ws, k));
    }
  }

  /** Replacing, deleting and sorting keep every record well formed. */
  lemma CollectionKeepsWellFormed(ws: seq<Workout>, id: nat, w: Workout, k: SortKey)
    requires AllWellFormed(ws) && WellFormed(w)
    ensures AllWellFormed(ReplaceById(ws, id, w))
    ensures AllWellFormed(DeleteById(ws, id))
    ensures AllWellFormed(SortBy(ws, k))
  {
    SortKeepsWellFormed(ws, k);
  }
}
