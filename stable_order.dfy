/**
  m_Modules.OrderBy(m => m.DisplayName): a stable sort of the discovered
  modules by display name. The .NET string collation is abstracted as a
  comparator `le` on display names, assumed to be a total preorder; OrderBy
  is modelled as a stable insertion sort, which is the order OrderBy promises.
*/
module StableOrder {
  import opened CupdeosModule

  ghost predicate TotalPreorder(le: (string, string) -> bool) {
    && (forall a, b :: le(a, b) || le(b, a))
    && (forall a, b, c :: le(a, b) && le(b, c) ==> le(a, c))
  }

  /** Two names the comparator cannot tell apart. */
  predicate SameRank(le: (string, string) -> bool, a: string, b: string) {
    le(a, b) && le(b, a)
  }

  predicate SortedByDisplayName(ms: seq<ModuleInfo>, le: (string, string) -> bool) {
    forall i, j :: 0 <= i < j < |ms| ==> le(ms[i].displayName, ms[j].displayName)
  }

  /** The subsequence of `ms` whose display names rank equal to `name`. */
  function RankedAs(ms: seq<ModuleInfo>, name: string, le: (string, string) -> bool): (r: seq<ModuleInfo>)
    ensures |r| <= |ms|
    ensures forall m :: m in r ==> m in ms && SameRank(le, m.displayName, name)
  {
    if ms == [] then []
    else (if SameRank(le, ms[0].displayName, name) then [ms[0]] else []) + RankedAs(ms[1..], name, le)
  }

  /** Puts `m` in front of the first module it does not rank after. */
  function InsertByName(m: ModuleInfo, ms: seq<ModuleInfo>, le: (string, string) -> bool): (r: seq<ModuleInfo>)
    ensures multiset(r) == multiset(ms) + multiset{m}
  {
    if ms == [] then [m]
    else if le(m.displayName, ms[0].displayName) then [m] + ms
    else
      assert ms == [ms[0]] + ms[1..];
      [ms[0]] + InsertByName(m, ms[1..], le)
  }

  function OrderByDisplayName(ms: seq<ModuleInfo>, le: (string, string) -> bool): (r: seq<ModuleInfo>)
    ensures multiset(r) == multiset(ms)
    ensures |r| == |ms|
  {
    if ms == [] then []
    else
      assert ms == [ms[0]] + ms[1..];
      InsertByName(ms[0], OrderByDisplayName(ms[1..], le), le)
  }

  lemma {:induction false} InsertByNameSorted(m: ModuleInfo, ms: seq<ModuleInfo>, le: (string, string) -> bool)
    requires TotalPreorder(le)
    requires SortedByDisplayName(ms, le)
    ensures SortedByDisplayName(InsertByName(m, ms, le), le)
  {
    if ms == [] {
    } else if le(m.displayName, ms[0].displayName) {
      var r := [m] + ms;
      forall i, j | 0 <= i < j < |r| ensures le(r[i].displayName, r[j].displayName) {
        if i == 0 {
          assert le(ms[0].displayName, ms[j - 1].displayName) || j == 1;
        }
      }
    } else {
      var tail := InsertByName(m, ms[1..], le);
      InsertByNameSorted(m, ms[1..], le);
      assert le(ms[0].displayName, m.displayName);
      forall x | x in tail ensures le(ms[0].displayName, x.displayName) {
        assert x in multiset(tail);
        if x != m {
          assert x in multiset(ms[1..]);
          var k :| 0 <= k < |ms[1..]| && ms[1..][k] == x;
          assert ms[k + 1] == x;
        }
      }
      var r := [ms[0]] + tail;
      forall i, j | 0 <= i < j < |r| ensures le(r[i].displayName, r[j].displayName) {
        if i == 0 {
          assert r[j] == tail[j - 1] && tail[j - 1] in tail;
        } else {
          assert r[i] == tail[i - 1] && r[j] == tail[j - 1];
        }
      }
    }
  }

  /** After refresh, the list is non-decreasing by display name. */
  lemma {:induction false} OrderByDisplayNameSorted(ms: seq<ModuleInfo>, le: (string, string) -> bool)
    requires TotalPreorder(le)
    ensures SortedByDisplayName(OrderByDisplayName(ms, le), le)
  {
    if ms != [] {
      OrderByDisplayNameSorted(ms[1..], le);
      InsertByNameSorted(ms[0], OrderByDisplayName(ms[1..], le), le);
    }
  }

  lemma RankedAsAppend(a: seq<ModuleInfo>, b: seq<ModuleInfo>, name: string, le: (string, string) -> bool)
    ensures RankedAs(a + b, name, le) == RankedAs(a, name, le) + RankedAs(b, name, le)
  {
    if a == [] {
      assert a + b == b;
    } else {
      assert (a + b)[1..] == a[1..] + b;
    }
  }

  /** Inserting `m` places it before every module of equal rank already present. */
  lemma {:induction false} InsertByNameRankedAs(m: ModuleInfo, ms: seq<ModuleInfo>, name: string, le: (string, string) -> bool)
    requires TotalPreorder(le)
    ensures RankedAs(InsertByName(m, ms, le), name, le) == RankedAs([m], name, le) + RankedAs(ms, name, le)
  {
    if ms == [] {
    } else if le(m.displayName, ms[0].displayName) {
      RankedAsAppend([m], ms, name, le);
    } else {
      InsertByNameRankedAs(m, ms[1..], name, le);
      RankedAsAppend([ms[0]], InsertByName(m, ms[1..], le), name, le);
      RankedAsAppend([ms[0]], ms[1..], name, le);
      assert [ms[0]] + ms[1..] == ms;
      // m and ms[0] cannot both rank like `name`: m would then rank at most ms[0].
      assert !(SameRank(le, m.displayName, name) && SameRank(le, ms[0].displayName, name));
    }
  }

  /** OrderBy is stable: modules whose names rank equal keep their discovery order. */
  lemma {:induction false} OrderByDisplayNameStable(ms: seq<ModuleInfo>, name: string, le: (string, string) -> bool)
    requires TotalPreorder(le)
    ensures RankedAs(OrderByDisplayName(ms, le), name, le) == RankedAs(ms, name, le)
  {
    if ms != [] {
      OrderByDisplayNameStable(ms[1..], name, le);
      InsertByNameRankedAs(ms[0], OrderByDisplayName(ms[1..], le), name, le);
      RankedAsAppend([ms[0]], ms[1..], name, le);
      assert [ms[0]] + ms[1..] == ms;
    }
  }

  lemma PreorderReflexive(le: (string, string) -> bool, a: string)
    requires TotalPreorder(le)
    ensures le(a, a)
  {
    assert le(a, a) || le(a, a);
  }

  lemma SortedHeadIsLeast(r: seq<ModuleInfo>, x: ModuleInfo, le: (string, string) -> bool)
    requires TotalPreorder(le)
    requires SortedByDisplayName(r, le)
    requires x in r
    ensures le(r[0].displayName, x.displayName)
  {
    var k :| 0 <= k < |r| && r[k] == x;
    if k == 0 {
      PreorderReflexive(le, x.displayName);
    }
  }

  lemma RankedAsOwnHead(r: seq<ModuleInfo>, le: (string, string) -> bool)
    requires TotalPreorder(le)
    requires r != []
    ensures RankedAs(r, r[0].displayName, le) != []
  {
    PreorderReflexive(le, r[0].displayName);
  }

  /** Two sorted lists that agree on every rank class are the same list. */
  lemma {:induction false} SortedRankedAsUnique(r1: seq<ModuleInfo>, r2: seq<ModuleInfo>, le: (string, string) -> bool)
    requires TotalPreorder(le)
    requires SortedByDisplayName(r1, le) && SortedByDisplayName(r2, le)
    requires forall name :: RankedAs(r1, name, le) == RankedAs(r2, name, le)
    ensures r1 == r2
  {
    if r1 != [] {
      RankedAsOwnHead(r1, le);
      assert RankedAs(r2, r1[0].displayName, le) != [];
    }
    if r2 != [] {
      RankedAsOwnHead(r2, le);
      assert RankedAs(r1, r2[0].displayName, le) != [];
    }
    if r1 != [] && r2 != [] {
      var x, y := r1[0], r2[0];
      PreorderReflexive(le, x.displayName);
      PreorderReflexive(le, y.displayName);
      var cx := RankedAs(r2, x.displayName, le);
      assert RankedAs(r1, x.displayName, le)[0] == x;
      assert cx[0] in cx;
      SortedHeadIsLeast(r2, cx[0], le);
      assert le(y.displayName, x.displayName);
      var cy := RankedAs(r1, y.displayName, le);
      assert RankedAs(r2, y.displayName, le)[0] == y;
      assert cy[0] in cy;
      SortedHeadIsLeast(r1, cy[0], le);
      assert le(x.displayName, y.displayName);
      assert cx[0] == y;
      assert x == y;
      forall name ensures RankedAs(r1[1..], name, le) == RankedAs(r2[1..], name, le) {
        var head := if SameRank(le, x.displayName, name) then [x] else [];
        assert RankedAs(r1, name, le) == head + RankedAs(r1[1..], name, le);
        assert RankedAs(r2, name, le) == head + RankedAs(r2[1..], name, le);
        assert RankedAs(r1, name, le) == RankedAs(r2, name, le);
        assert RankedAs(r1, name, le)[|head|..] == RankedAs(r1[1..], name, le);
        assert RankedAs(r2, name, le)[|head|..] == RankedAs(r2[1..], name, le);
      }
      assert SortedByDisplayName(r1[1..], le) by {
        forall i, j | 0 <= i < j < |r1[1..]| ensures le(r1[1..][i].displayName, r1[1..][j].displayName) {
          assert r1[1..][i] == r1[i + 1] && r1[1..][j] == r1[j + 1];
        }
      }
      assert SortedByDisplayName(r2[1..], le) by {
        forall i, j | 0 <= i < j < |r2[1..]| ensures le(r2[1..][i].displayName, r2[1..][j].displayName) {
          assert r2[1..][i] == r2[i + 1] && r2[1..][j] == r2[j + 1];
        }
      }
      SortedRankedAsUnique(r1[1..], r2[1..], le);
      assert r1 == [x] + r1[1..] && r2 == [y] + r2[1..];
    }
  }

  /** OrderByDisplayName is the stable sort: the only sorted list that keeps every rank class of
      the input in the input's order. */
  lemma OrderByDisplayNameIsStableSort(ms: seq<ModuleInfo>, r: seq<ModuleInfo>, le: (string, string) -> bool)
    requires TotalPreorder(le)
    requires SortedByDisplayName(r, le)
    requires forall name :: RankedAs(r, name, le) == RankedAs(ms, name, le)
    ensures r == OrderByDisplayName(ms, le)
  {
    var o := OrderByDisplayName(ms, le);
    OrderByDisplayNameSorted(ms, le);
    forall name ensures RankedAs(r, name, le) == RankedAs(o, name, le) {
      OrderByDisplayNameStable(ms, name, le);
    }
    SortedRankedAsUnique(r, o, le);
  }
}
