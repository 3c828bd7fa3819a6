/** Data frames indexed by exposure id, reduced to what the program relies on:
    an ordered sequence of (id, row) entries. An id may occur more than once,
    as in a pandas index. */
module Tables {
  import opened Wrappers

  type Table<R> = seq<(int, R)>

  /** The index of a table, in row order. */
  function Ids<R>(t: Table<R>): (ids: seq<int>)
    ensures |ids| == |t|
    ensures forall i :: 0 <= i < |t| ==> ids[i] == t[i].0
    decreases |t|
  {
    if t == [] then [] else [t[0].0] + Ids(t[1..])
  }

  /** No id occurs twice. */
  predicate Unique(ids: seq<int>)
  {
    forall i, j :: 0 <= i < j < |ids| ==> ids[i] != ids[j]
  }

  /** The ids of `ids` that are in `keep`, in their order. */
  function KeepIn(ids: seq<int>, keep: set<int>): (r: seq<int>)
    ensures forall k :: k in r <==> k in ids && k in keep
    decreases |ids|
  {
    if ids == [] then []
    else (if ids[0] in keep then [ids[0]] else []) + KeepIn(ids[1..], keep)
  }

  lemma {:induction false} KeepInUnique(ids: seq<int>, keep: set<int>)
    requires Unique(ids)
    ensures Unique(KeepIn(ids, keep))
    decreases |ids|
  {
    if ids != [] {
      assert Unique(ids[1..]) by {
        forall i, j | 0 <= i < j < |ids[1..]| ensures ids[1..][i] != ids[1..][j] {
          assert ids[1..][i] == ids[i + 1] && ids[1..][j] == ids[j + 1];
        }
      }
      KeepInUnique(ids[1..], keep);
      var rest := KeepIn(ids[1..], keep);
      assert ids[0] !in rest by {
        forall i | 0 <= i < |ids[1..]| ensures ids[1..][i] != ids[0] {
          assert ids[1..][i] == ids[i + 1];
        }
      }
    }
  }

  // ---------------------------------------------------------------------------
  // Skip-on-error collection

  /** The rows of the ids whose read succeeds, in the order of `ids`; a read
      that fails (`None`) contributes no row. */
  function Successes<R>(ids: seq<int>, read: int -> Option<R>): Table<R>
    decreases |ids|
  {
    if ids == [] then []
    else
      var k := ids[|ids| - 1];
      Successes(ids[..|ids| - 1], read) + (if read(k).Some? then [(k, read(k).value)] else [])
  }

  /** A row is collected exactly when its id is one of `ids` and the read of
      that id returned it. */
  lemma {:induction false} SuccessesMember<R>(ids: seq<int>, read: int -> Option<R>, k: int, r: R)
    ensures (k, r) in Successes(ids, read) <==> k in ids && read(k) == Some(r)
    decreases |ids|
  {
    if ids != [] {
      var init := ids[..|ids| - 1];
      SuccessesMember(init, read, k, r);
      assert ids == init + [ids[|ids| - 1]];
    }
  }

  /** One step of a collecting loop: the row read for the next id, if any,
      goes after the rows collected so far. */
  lemma SuccessesStep<R>(ids: seq<int>, i: nat, read: int -> Option<R>, row: Option<R>)
    requires i < |ids| && row == read(ids[i])
    ensures Successes(ids[..i + 1], read) ==
            Successes(ids[..i], read) + (if row.Some? then [(ids[i], row.value)] else [])
  {
    assert ids[..i + 1][..i] == ids[..i];
  }

  /** Collecting over two runs of ids one after the other gives the two
      collections one after the other: the order of `ids` is kept. */
  lemma {:induction false} SuccessesAppend<R>(a: seq<int>, b: seq<int>, read: int -> Option<R>)
    ensures Successes(a + b, read) == Successes(a, read) + Successes(b, read)
    decreases |b|
  {
    if b == [] {
      assert a + b == a;
    } else {
      var b' := b[..|b| - 1];
      assert (a + b)[..|a + b| - 1] == a + b';
      SuccessesAppend(a, b', read);
    }
  }

  /** The index of the collection is the ids whose read succeeds, in order. */
  lemma {:induction false} SuccessesIds<R>(ids: seq<int>, read: int -> Option<R>)
    ensures Ids(Successes(ids, read)) == KeepIn(ids, set k | k in ids && read(k).Some?)
    decreases |ids|
  {
    var keep := set k | k in ids && read(k).Some?;
    SuccessesIdsWithin(ids, read, keep);
  }

  lemma {:induction false} SuccessesIdsWithin<R>(ids: seq<int>, read: int -> Option<R>, keep: set<int>)
    requires forall k :: k in ids ==> (k in keep <==> read(k).Some?)
    ensures Ids(Successes(ids, read)) == KeepIn(ids, keep)
    decreases |ids|
  {
    if ids != [] {
      var init, last := ids[..|ids| - 1], ids[|ids| - 1];
      assert ids == init + [last];
      assert forall k :: k in init ==> k in ids;
      SuccessesIdsWithin(init, read, keep);
      KeepInAppend(init, [last], keep);
      var tail: Table<R> := if read(last).Some? then [(last, read(last).value)] else [];
      assert Successes(ids, read) == Successes(init, read) + tail;
      IdsAppend(Successes(init, read), tail);
      assert [last][1..] == [];
      assert KeepIn([last], keep) == (if last in keep then [last] else []) + KeepIn([], keep);
      assert Ids(tail) == KeepIn([last], keep);
    }
  }

  lemma {:induction false} KeepInAppend(a: seq<int>, b: seq<int>, keep: set<int>)
    ensures KeepIn(a + b, keep) == KeepIn(a, keep) + KeepIn(b, keep)
    decreases |a|
  {
    if a == [] {
      assert a + b == b;
    } else {
      assert (a + b)[1..] == a[1..] + b;
      KeepInAppend(a[1..], b, keep);
    }
  }

  lemma {:induction false} IdsAppend<R>(s: Table<R>, t: Table<R>)
    ensures Ids(s + t) == Ids(s) + Ids(t)
    decreases |s|
  {
    if s == [] {
      assert s + t == t;
    } else {
      assert (s + t)[1..] == s[1..] + t;
      IdsAppend(s[1..], t);
    }
  }

  /** Collecting over an inventory without repeated ids yields a table without
      repeated ids: no row is introduced twice. */
  lemma SuccessesUnique<R>(ids: seq<int>, read: int -> Option<R>)
    requires Unique(ids)
    ensures Unique(Ids(Successes(ids, read)))
  {
    SuccessesIds(ids, read);
    KeepInUnique(ids, set k | k in ids && read(k).Some?);
  }

  // ---------------------------------------------------------------------------
  // Inner join on the index

  /** The rows of `r` indexed by `k`, each paired with `a`. */
  function Matches<L, R>(k: int, a: L, r: Table<R>): Table<(L, R)>
    decreases |r|
  {
    if r == [] then []
    else (if r[0].0 == k then [(k, (a, r[0].1))] else []) + Matches(k, a, r[1..])
  }

  /** `l.merge(r, left_index=True, right_index=True)` with the default
      `how='inner'`: for each row of `l` in order, one row per row of `r` with
      the same id. */
  function Join<L, R>(l: Table<L>, r: Table<R>): Table<(L, R)>
    decreases |l|
  {
    if l == [] then []
    else Matches(l[0].0, l[0].1, r) + Join(l[1..], r)
  }

  lemma {:induction false} MatchesMember<L, R>(k: int, a: L, r: Table<R>, k': int, a': L, b: R)
    ensures (k', (a', b)) in Matches(k, a, r) <==> k' == k && a' == a && (k, b) in r
    decreases |r|
  {
    if r != [] {
      MatchesMember(k, a, r[1..], k', a', b);
      assert r == [r[0]] + r[1..];
    }
  }

  /** A joined row exists exactly when both tables have a row with that id;
      it pairs those two rows. */
  lemma {:induction false} JoinMember<L, R>(l: Table<L>, r: Table<R>, k: int, a: L, b: R)
    ensures (k, (a, b)) in Join(l, r) <==> (k, a) in l && (k, b) in r
    decreases |l|
  {
    if l != [] {
      JoinMember(l[1..], r, k, a, b);
      MatchesMember(l[0].0, l[0].1, r, k, a, b);
      assert l == [l[0]] + l[1..];
    }
  }

  /** The rest of a table of distinct ids has distinct ids, none of them the
      first row's. */
  lemma UniqueTail<R>(t: Table<R>)
    requires t != [] && Unique(Ids(t))
    ensures Unique(Ids(t[1..])) && t[0].0 !in Ids(t[1..])
  {
    assert Ids(t) == [t[0].0] + Ids(t[1..]);
    forall i, j | 0 <= i < j < |Ids(t[1..])| ensures Ids(t[1..])[i] != Ids(t[1..])[j] {
      assert Ids(t[1..])[i] == Ids(t)[i + 1] && Ids(t[1..])[j] == Ids(t)[j + 1];
    }
    forall i | 0 <= i < |Ids(t[1..])| ensures Ids(t[1..])[i] != t[0].0 {
      assert Ids(t[1..])[i] == Ids(t)[i + 1];
    }
  }

  lemma {:induction false} MatchesKeys<L, R>(k: int, a: L, r: Table<R>)
    ensures forall i :: 0 <= i < |Matches(k, a, r)| ==> Matches(k, a, r)[i].0 == k
    ensures k in Ids(r) <==> |Matches(k, a, r)| > 0
    decreases |r|
  {
    if r != [] {
      MatchesKeys(k, a, r[1..]);
      assert Ids(r) == [r[0].0] + Ids(r[1..]);
    }
  }

  lemma {:induction false} MatchesAtMostOne<L, R>(k: int, a: L, r: Table<R>)
    requires Unique(Ids(r))
    ensures |Matches(k, a, r)| <= 1
    decreases |r|
  {
    if r != [] {
      UniqueTail(r);
      MatchesKeys(k, a, r[1..]);
      MatchesAtMostOne(k, a, r[1..]);
    }
  }

  /** The index of the join is the index of `l` restricted to the ids `r`
      has: with a right table of distinct ids, the left order is kept and each
      left row gives at most one joined row. */
  lemma {:induction false} JoinIds<L, R>(l: Table<L>, r: Table<R>)
    requires Unique(Ids(r))
    ensures Ids(Join(l, r)) == KeepIn(Ids(l), set k | k in Ids(r))
    decreases |l|
  {
    if l != [] {
      JoinIds(l[1..], r);
      var k := l[0].0;
      MatchesKeys(k, l[0].1, r);
      MatchesAtMostOne(k, l[0].1, r);
      var m := Matches(k, l[0].1, r);
      IdsAppend(m, Join(l[1..], r));
      assert Ids(l)[1..] == Ids(l[1..]);
      if k in Ids(r) {
        assert Ids(m) == [k];
      } else {
        assert m == [];
      }
    }
  }

  /** An id is in the join exactly when it is in both tables. */
  lemma JoinKeyAt<L, R>(l: Table<L>, r: Table<R>, k: int)
    ensures k in Ids(Join(l, r)) <==> k in Ids(l) && k in Ids(r)
  {
    JoinCount(l, r, k);
    MulPositive(Count(Ids(l), k), Count(Ids(r), k));
  }

  /** The key set of a join is the intersection of the two key sets. */
  lemma JoinKeys<L, R>(l: Table<L>, r: Table<R>)
    ensures (set k | k in Ids(Join(l, r))) == (set k | k in Ids(l)) * (set k | k in Ids(r))
  {
    forall k ensures k in Ids(Join(l, r)) <==> k in Ids(l) && k in Ids(r) {
      JoinKeyAt(l, r, k);
    }
  }

  /** Joining two tables of distinct ids gives a table of distinct ids. */
  lemma JoinUnique<L, R>(l: Table<L>, r: Table<R>)
    requires Unique(Ids(l)) && Unique(Ids(r))
    ensures Unique(Ids(Join(l, r)))
  {
    JoinIds(l, r);
    KeepInUnique(Ids(l), set k | k in Ids(r));
  }

  // ---------------------------------------------------------------------------
  // Selection by a sequence of ids

  /** The first row of `t` indexed by `k`, if any. */
  function Find<R>(t: Table<R>, k: int): (r: Option<R>)
    ensures r.Some? <==> k in Ids(t)
    decreases |t|
  {
    if t == [] then None
    else if t[0].0 == k then Some(t[0].1)
    else Find(t[1..], k)
  }

  lemma {:induction false} FindMember<R>(t: Table<R>, k: int)
    requires k in Ids(t)
    ensures (k, Find(t, k).value) in t
    decreases |t|
  {
    if t[0].0 != k {
      assert Ids(t)[1..] == Ids(t[1..]);
      FindMember(t[1..], k);
    }
  }

  /** The id of every row is in the index. */
  lemma IdOf<R>(t: Table<R>, k: int, v: R)
    requires (k, v) in t
    ensures k in Ids(t)
  {
    var i :| 0 <= i < |t| && t[i] == (k, v);
    assert Ids(t)[i] == k;
  }

  /** In a table of distinct ids, two rows with the same id are one row. */
  lemma UniqueAt<R>(t: Table<R>, a: int, b: int)
    requires Unique(Ids(t)) && 0 <= a < |t| && 0 <= b < |t| && t[a].0 == t[b].0
    ensures a == b
  {
    assert Ids(t)[a] == Ids(t)[b];
  }

  /** In a table of distinct ids, the row found for an id is its only row. */
  lemma FindUnique<R>(t: Table<R>, k: int, v: R)
    requires Unique(Ids(t)) && (k, v) in t
    ensures Find(t, k) == Some(v)
  {
    var i :| 0 <= i < |t| && t[i] == (k, v);
    FindMember(t, k);
    var w := Find(t, k).value;
    var j :| 0 <= j < |t| && t[j] == (k, w);
    UniqueAt(t, i, j);
  }

  /** The rows of `t` indexed by `k`, in row order. */
  function RowsOf<R>(t: Table<R>, k: int): (rows: Table<R>)
    ensures forall i :: 0 <= i < |rows| ==> rows[i].0 == k
    decreases |t|
  {
    if t == [] then []
    else (if t[0].0 == k then [t[0]] else []) + RowsOf(t[1..], k)
  }

  /** `t.loc[ids]`: for each id in order, the rows of `t` with that id. */
  function Select<R>(t: Table<R>, ids: seq<int>): Table<R>
    decreases |ids|
  {
    if ids == [] then []
    else RowsOf(t, ids[0]) + Select(t, ids[1..])
  }

  lemma {:induction false} RowsOfUnique<R>(t: Table<R>, k: int)
    requires Unique(Ids(t))
    ensures k in Ids(t) ==> RowsOf(t, k) == [(k, Find(t, k).value)]
    ensures k !in Ids(t) ==> RowsOf(t, k) == []
    decreases |t|
  {
    if t != [] {
      assert Ids(t) == [t[0].0] + Ids(t[1..]);
      UniqueTail(t);
      RowsOfUnique(t[1..], k);
    }
  }

  /** For each id in turn, the one row of a table of distinct ids. */
  function SelectedRows<R>(t: Table<R>, ids: seq<int>): Table<R>
    requires forall k :: k in ids ==> k in Ids(t)
    decreases |ids|
  {
    if ids == [] then [] else [(ids[0], Find(t, ids[0]).value)] + SelectedRows(t, ids[1..])
  }

  lemma {:induction false} SelectUnique<R>(t: Table<R>, ids: seq<int>)
    requires Unique(Ids(t))
    requires forall k :: k in ids ==> k in Ids(t)
    ensures Select(t, ids) == SelectedRows(t, ids)
    decreases |ids|
  {
    if ids != [] {
      assert forall k :: k in ids[1..] ==> k in ids;
      SelectUnique(t, ids[1..]);
      RowsOfUnique(t, ids[0]);
    }
  }

  lemma {:induction false} SelectedRowsShape<R>(t: Table<R>, ids: seq<int>)
    requires forall k :: k in ids ==> k in Ids(t)
    ensures Ids(SelectedRows(t, ids)) == ids
    ensures forall i :: 0 <= i < |ids| ==> SelectedRows(t, ids)[i].1 == Find(t, ids[i]).value
    decreases |ids|
  {
    if ids != [] {
      assert forall k :: k in ids[1..] ==> k in ids;
      SelectedRowsShape(t, ids[1..]);
      var rest := SelectedRows(t, ids[1..]);
      var first: Table<R> := [(ids[0], Find(t, ids[0]).value)];
      IdsAppend(first, rest);
      assert ids == [ids[0]] + ids[1..];
      forall i | 0 <= i < |ids| ensures SelectedRows(t, ids)[i].1 == Find(t, ids[i]).value {
        if i > 0 {
          assert SelectedRows(t, ids)[i] == rest[i - 1];
        }
      }
    }
  }

  /** Selecting ids that a table of distinct ids has gives one row per
      selected id, in the order of the selection, each the table's row. */
  lemma SelectIds<R>(t: Table<R>, ids: seq<int>)
    requires Unique(Ids(t))
    requires forall k :: k in ids ==> k in Ids(t)
    ensures Ids(Select(t, ids)) == ids
    ensures forall i :: 0 <= i < |ids| ==> Select(t, ids)[i].1 == Find(t, ids[i]).value
  {
    SelectUnique(t, ids);
    SelectedRowsShape(t, ids);
  }

  // ---------------------------------------------------------------------------
  // Counting rows by id

  /** How often `k` occurs in `ids`. */
  function Count<T(==)>(ids: seq<T>, k: T): (n: nat)
    ensures n > 0 <==> k in ids
    decreases |ids|
  {
    if ids == [] then 0 else (if ids[0] == k then 1 else 0) + Count(ids[1..], k)
  }

  lemma {:induction false} CountAppend<T>(a: seq<T>, b: seq<T>, k: T)
    ensures Count(a + b, k) == Count(a, k) + Count(b, k)
    decreases |a|
  {
    if a == [] {
      assert a + b == b;
    } else {
      assert (a + b)[1..] == a[1..] + b;
      CountAppend(a[1..], b, k);
    }
  }

  /** `RowsOf(t, j)` holds every row of `t` with id `j` and nothing else: as
      many rows as the index has occurrences of `j`. */
  lemma {:induction false} RowsOfCount<R>(t: Table<R>, j: int, k: int)
    ensures Count(Ids(RowsOf(t, j)), k) == if j == k then Count(Ids(t), k) else 0
    ensures |RowsOf(t, j)| == Count(Ids(t), j)
    decreases |t|
  {
    if t != [] {
      RowsOfCount(t[1..], j, k);
      RowsOfCount(t[1..], j, j);
      var head: Table<R> := if t[0].0 == j then [t[0]] else [];
      IdsAppend(head, RowsOf(t[1..], j));
      CountAppend(Ids(head), Ids(RowsOf(t[1..], j)), k);
      assert Ids(t)[1..] == Ids(t[1..]);
    }
  }

  lemma {:induction false} RowsOfMember<R>(t: Table<R>, k: int, v: R)
    ensures (k, v) in RowsOf(t, k) <==> (k, v) in t
    decreases |t|
  {
    if t != [] {
      RowsOfMember(t[1..], k, v);
      assert t == [t[0]] + t[1..];
    }
  }

  /** When an id occurs once, its row is the only row `RowsOf` gives. */
  lemma RowsOfSingle<R>(t: Table<R>, k: int, v: R)
    requires (k, v) in t && Count(Ids(t), k) == 1
    ensures RowsOf(t, k) == [(k, v)]
  {
    RowsOfCount(t, k, k);
    RowsOfMember(t, k, v);
  }

  lemma {:induction false} MatchesCount<L, R>(k: int, a: L, r: Table<R>, j: int)
    ensures Count(Ids(Matches(k, a, r)), j) == if j == k then Count(Ids(r), k) else 0
    decreases |r|
  {
    if r != [] {
      MatchesCount(k, a, r[1..], j);
      var head: Table<(L, R)> := if r[0].0 == k then [(k, (a, r[0].1))] else [];
      IdsAppend(head, Matches(k, a, r[1..]));
      CountAppend(Ids(head), Ids(Matches(k, a, r[1..])), j);
      assert Ids(r)[1..] == Ids(r[1..]);
    }
  }

  lemma MulPositive(a: nat, b: nat)
    ensures a * b > 0 <==> a > 0 && b > 0
  {
    if a > 0 && b > 0 {
      assert a * b >= b;
    }
  }

  /** The counting step shared by joins and selections: one more occurrence
      on the left adds one more run of the right count. */
  lemma ProductStep(total: int, first: int, rest: int, c: int, ci: int, ct: int, hit: bool)
    requires total == first + rest
    requires first == if hit then ct else 0
    requires c == (if hit then 1 else 0) + ci
    requires rest == ci * ct
    ensures total == c * ct
  {
    if hit {
      assert (ci + 1) * ct == ct + ci * ct;
    }
  }

  /** Every pair of rows with the same id gives one joined row: an id occurs
      in the join as often as the product of its occurrences in the two
      tables. */
  lemma {:induction false} JoinCount<L, R>(l: Table<L>, r: Table<R>, k: int)
    ensures Count(Ids(Join(l, r)), k) == Count(Ids(l), k) * Count(Ids(r), k)
    decreases |l|
  {
    if l != [] {
      var m, rest := Matches(l[0].0, l[0].1, r), Join(l[1..], r);
      IdsAppend(m, rest);
      CountAppend(Ids(m), Ids(rest), k);
      MatchesCount(l[0].0, l[0].1, r, k);
      assert Ids(l)[1..] == Ids(l[1..]);
      JoinCount(l[1..], r, k);
      ProductStep(Count(Ids(Join(l, r)), k), Count(Ids(m), k), Count(Ids(rest), k),
                  Count(Ids(l), k), Count(Ids(l[1..]), k), Count(Ids(r), k), l[0].0 == k);
    }
  }

  /** `.loc[ids]` gives each occurrence of a selected id every row with that
      id. */
  lemma {:induction false} SelectCount<R>(t: Table<R>, ids: seq<int>, k: int)
    ensures Count(Ids(Select(t, ids)), k) == Count(ids, k) * Count(Ids(t), k)
    decreases |ids|
  {
    if ids != [] {
      var first, rest := RowsOf(t, ids[0]), Select(t, ids[1..]);
      IdsAppend(first, rest);
      CountAppend(Ids(first), Ids(rest), k);
      RowsOfCount(t, ids[0], k);
      SelectCount(t, ids[1..], k);
      ProductStep(Count(Ids(Select(t, ids)), k), Count(Ids(first), k), Count(Ids(rest), k),
                  Count(ids, k), Count(ids[1..], k), Count(Ids(t), k), ids[0] == k);
    }
  }

  /** Selecting ids each of which has a single row gives that row for each
      selected id, in the order asked for. */
  lemma {:induction false} SelectSingletons<R>(t: Table<R>, ids: seq<int>, vals: seq<R>)
    requires |vals| == |ids|
    requires forall i :: 0 <= i < |ids| ==> RowsOf(t, ids[i]) == [(ids[i], vals[i])]
    ensures |Select(t, ids)| == |ids|
    ensures forall i :: 0 <= i < |ids| ==> Select(t, ids)[i] == (ids[i], vals[i])
    decreases |ids|
  {
    if ids != [] {
      forall i | 0 <= i < |ids| - 1 ensures RowsOf(t, ids[1..][i]) == [(ids[1..][i], vals[1..][i])] {
        assert ids[1..][i] == ids[i + 1] && vals[1..][i] == vals[i + 1];
      }
      SelectSingletons(t, ids[1..], vals[1..]);
      assert RowsOf(t, ids[0]) == [(ids[0], vals[0])];
      forall i | 0 <= i < |ids| ensures Select(t, ids)[i] == (ids[i], vals[i]) {
        if i > 0 {
          assert Select(t, ids)[i] == Select(t, ids[1..])[i - 1];
          assert ids[1..][i - 1] == ids[i] && vals[1..][i - 1] == vals[i];
        }
      }
    }
  }

  /** No id occurs twice in a sequence of distinct ids. */
  lemma {:induction false} UniqueCount(s: seq<int>, k: int)
    ensures Unique(s) ==> Count(s, k) <= 1
    decreases |s|
  {
    if s != [] && Unique(s) {
      assert Unique(s[1..]) by {
        forall i, j | 0 <= i < j < |s[1..]| ensures s[1..][i] != s[1..][j] {
          assert s[1..][i] == s[i + 1] && s[1..][j] == s[j + 1];
        }
      }
      UniqueCount(s[1..], k);
      if s[0] == k {
        assert k !in s[1..] by {
          forall i | 0 <= i < |s[1..]| ensures s[1..][i] != k {
            assert s[1..][i] == s[i + 1];
          }
        }
      }
    }
  }

  /** An id occurs in the collection as often as in `ids` when its read
      succeeds, and not at all otherwise. */
  lemma {:induction false} SuccessesCount<R>(ids: seq<int>, read: int -> Option<R>, k: int)
    ensures Count(Ids(Successes(ids, read)), k) == if read(k).Some? then Count(ids, k) else 0
    decreases |ids|
  {
    if ids != [] {
      var init, last := ids[..|ids| - 1], ids[|ids| - 1];
      SuccessesCount(init, read, k);
      assert ids == init + [last];
      CountAppend(init, [last], k);
      var tail: Table<R> := if read(last).Some? then [(last, read(last).value)] else [];
      IdsAppend(Successes(init, read), tail);
      CountAppend(Ids(Successes(init, read)), Ids(tail), k);
    }
  }

  /** Two positions holding the same id count it twice. */
  lemma {:induction false} CountTwice(s: seq<int>, i: int, j: int)
    requires 0 <= i < j < |s| && s[i] == s[j]
    ensures Count(s, s[i]) >= 2
    decreases |s|
  {
    if i > 0 {
      assert s[1..][i - 1] == s[i] && s[1..][j - 1] == s[j];
      CountTwice(s[1..], i - 1, j - 1);
    } else {
      assert s[1..][j - 1] == s[j];
    }
  }
}
