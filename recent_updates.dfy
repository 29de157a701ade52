/** `get_recent_updates`: the inventory sorted newest first by `last_updated_at`, cut to ten
    records, and the fields of the newest one. */
module RecentUpdates {
  import opened Wrappers
  import opened Inventory

  /** How many records the reply lists. */
  const RecentLimit := 10

  /** The sort key, `x.get("last_updated_at", "")`. */
  function Key(item: Item): string {
    item.lastUpdatedAt.GetOr("")
  }

  /** Newest first: no record has a later timestamp than one before it. */
  ghost predicate NewestFirst(s: seq<Item>) {
    forall i, j :: 0 <= i < j < |s| ==> StrLe(Key(s[j]), Key(s[i]))
  }

  /** The records of `s` whose timestamp is `k`, in their order in `s`. */
  function WithKey(s: seq<Item>, k: string): seq<Item> {
    if s == [] then []
    else (if Key(s[0]) == k then [s[0]] else []) + WithKey(s[1..], k)
  }

  /** Puts `x`, taken from in front of `s`, before the first record of `s` that is not newer. */
  function Insert(x: Item, s: seq<Item>): seq<Item> {
    if s == [] || StrLe(Key(s[0]), Key(x)) then [x] + s
    else [s[0]] + Insert(x, s[1..])
  }

  /** `sorted(items, key=..., reverse=True)`, a stable sort from newest to oldest. */
  function SortNewestFirst(s: seq<Item>): seq<Item> {
    if s == [] then [] else Insert(s[0], SortNewestFirst(s[1..]))
  }

  lemma {:induction false} InsertPermutes(x: Item, s: seq<Item>)
    ensures multiset(Insert(x, s)) == multiset([x] + s)
  {
    if s != [] && !StrLe(Key(s[0]), Key(x)) {
      InsertPermutes(x, s[1..]);
      assert s == [s[0]] + s[1..];
    }
  }

  lemma {:induction false} InsertNewestFirst(x: Item, s: seq<Item>)
    requires NewestFirst(s)
    ensures NewestFirst(Insert(x, s))
  {
    if s == [] || StrLe(Key(s[0]), Key(x)) {
      var t := [x] + s;
      forall i, j | 0 <= i < j < |t| ensures StrLe(Key(t[j]), Key(t[i])) {
        if i == 0 && j > 1 {
          StrLeTransitive(Key(t[j]), Key(s[0]), Key(x));
        }
      }
    } else {
      var rest := Insert(x, s[1..]);
      InsertNewestFirst(x, s[1..]);
      InsertPermutes(x, s[1..]);
      StrLeTotal(Key(s[0]), Key(x));
      var t := [s[0]] + rest;
      forall i, j | 0 <= i < j < |t| ensures StrLe(Key(t[j]), Key(t[i])) {
        if i == 0 {
          var y := rest[j - 1];
          assert y in multiset(rest);
          assert y == x || y in s[1..];
        }
      }
    }
  }

  lemma {:induction false} InsertWithKey(x: Item, s: seq<Item>, k: string)
    ensures WithKey(Insert(x, s), k) == WithKey([x] + s, k)
  {
    assert ([x] + s)[1..] == s;
    if s != [] && !StrLe(Key(s[0]), Key(x)) {
      InsertWithKey(x, s[1..], k);
      StrLeReflexive(Key(x));
      assert Key(s[0]) != Key(x);
      assert ([s[0]] + Insert(x, s[1..]))[1..] == Insert(x, s[1..]);
      assert ([x] + s[1..])[1..] == s[1..];
      assert ([s[0]] + s[1..])[1..] == s[1..];
      assert s == [s[0]] + s[1..];
    }
  }

  /** The sort is a permutation: it neither loses nor duplicates a record. */
  lemma {:induction false} SortPermutes(s: seq<Item>)
    ensures multiset(SortNewestFirst(s)) == multiset(s)
  {
    if s != [] {
      SortPermutes(s[1..]);
      InsertPermutes(s[0], SortNewestFirst(s[1..]));
      assert s == [s[0]] + s[1..];
    }
  }

  /** The sort orders the records newest first. */
  lemma {:induction false} SortIsNewestFirst(s: seq<Item>)
    ensures NewestFirst(SortNewestFirst(s))
  {
    if s != [] {
      SortIsNewestFirst(s[1..]);
      InsertNewestFirst(s[0], SortNewestFirst(s[1..]));
    }
  }

  /** The sort is stable: records with equal timestamps keep their relative order. */
  lemma {:induction false} SortIsStable(s: seq<Item>, k: string)
    ensures WithKey(SortNewestFirst(s), k) == WithKey(s, k)
  {
    if s != [] {
      SortIsStable(s[1..], k);
      InsertWithKey(s[0], SortNewestFirst(s[1..]), k);
      assert ([s[0]] + SortNewestFirst(s[1..]))[1..] == SortNewestFirst(s[1..]);
    }
  }

  lemma {:induction false} WithKeyPrefix(s: seq<Item>, m: nat, k: string)
    requires m <= |s|
    ensures WithKey(s[..m], k) <= WithKey(s, k)
  {
    if m > 0 {
      WithKeyPrefix(s[1..], m - 1, k);
      assert s[..m][1..] == s[1..][..m - 1];
    }
  }

  /** The first record of `s` with timestamp `k` is the first entry of `WithKey(s, k)`, and
      every record before it has another timestamp. */
  lemma {:induction false} WithKeyFirst(s: seq<Item>, k: string)
    requires WithKey(s, k) != []
    ensures exists i :: 0 <= i < |s| && s[i] == WithKey(s, k)[0] && Key(s[i]) == k &&
                        forall j :: 0 <= j < i ==> Key(s[j]) != k
  {
    if Key(s[0]) != k {
      WithKeyFirst(s[1..], k);
      var i :| 0 <= i < |s[1..]| && s[1..][i] == WithKey(s[1..], k)[0] && Key(s[1..][i]) == k &&
        forall j :: 0 <= j < i ==> Key(s[1..][j]) != k;
      assert s[i + 1] == WithKey(s, k)[0];
      forall j | 0 <= j < i + 1 ensures Key(s[j]) != k {
        if j > 0 {
          assert s[j] == s[1..][j - 1];
        }
      }
    } else {
      assert s[0] == WithKey(s, k)[0];
    }
  }

  /** The reply: `{"recent_updates": [], "most_recent_user": None}` for an empty inventory,
      otherwise the newest record's fields and up to ten records, newest first. */
  datatype RecentReport =
    | NoRecentUpdates
    | Updates(
        mostRecentUser: Option<string>,
        mostRecentItem: Option<string>,
        lastUpdatedAt: Option<string>,
        recentUpdates: seq<Item>)

  lemma NewestFirstCut(s: seq<Item>, m: nat)
    requires NewestFirst(s) && 0 < m <= |s|
    ensures NewestFirst(s[..m])
    ensures forall x :: x in multiset(s[m..]) ==> StrLe(Key(x), Key(s[m - 1]))
  {
    forall x | x in multiset(s[m..]) ensures StrLe(Key(x), Key(s[m - 1])) {
      var j :| 0 <= j < |s[m..]| && s[m..][j] == x;
      assert s[m + j] == x;
    }
  }

  lemma MultisetCut(all: seq<Item>, s: seq<Item>, m: nat)
    requires multiset(s) == multiset(all) && m <= |s|
    ensures multiset(s[..m]) <= multiset(all)
    ensures multiset(all) - multiset(s[..m]) == multiset(s[m..])
  {
    assert s == s[..m] + s[m..];
  }

  /** The first `m` records of the sorted inventory are the `m` newest: what is left out is no
      newer than the last record kept. */
  lemma SortedPrefixIsNewest(all: seq<Item>, m: nat)
    requires 0 < m <= |all|
    ensures |SortNewestFirst(all)| == |all|
    ensures var recent := SortNewestFirst(all)[..m];
      NewestFirst(recent) &&
      multiset(recent) <= multiset(all) &&
      forall x :: x in multiset(all) - multiset(recent) ==> StrLe(Key(x), Key(recent[m - 1]))
  {
    var sorted := SortNewestFirst(all);
    SortPermutes(all);
    SortIsNewestFirst(all);
    assert |multiset(sorted)| == |multiset(all)|;
    NewestFirstCut(sorted, m);
    MultisetCut(all, sorted, m);
  }

  /** Cutting the sorted inventory keeps, for every timestamp, a prefix of the input's records
      with that timestamp, in input order. */
  lemma SortedPrefixIsStable(all: seq<Item>, m: nat)
    requires m <= |SortNewestFirst(all)|
    ensures forall k :: WithKey(SortNewestFirst(all)[..m], k) <= WithKey(all, k)
  {
    forall k ensures WithKey(SortNewestFirst(all)[..m], k) <= WithKey(all, k) {
      WithKeyPrefix(SortNewestFirst(all), m, k);
      SortIsStable(all, k);
    }
  }

  /** `get_recent_updates`, over the whole inventory `all`. */
  function GetRecentUpdates(all: seq<Item>): (r: RecentReport)
    ensures r == NoRecentUpdates <==> all == []
    ensures r.Updates? ==>
      var recent := r.recentUpdates;
      |recent| == (if |all| < RecentLimit then |all| else RecentLimit) &&
      NewestFirst(recent) &&
      multiset(recent) <= multiset(all) &&
      (forall k :: WithKey(recent, k) <= WithKey(all, k)) &&
      (forall x :: x in multiset(all) - multiset(recent) ==> StrLe(Key(x), Key(recent[|recent| - 1]))) &&
      r.mostRecentUser == recent[0].lastUpdatedBy &&
      r.mostRecentItem == recent[0].itemName &&
      r.lastUpdatedAt == recent[0].lastUpdatedAt
  {
    if all == [] then NoRecentUpdates
    else
      var m := if |all| < RecentLimit then |all| else RecentLimit;
      SortedPrefixIsNewest(all, m);
      SortedPrefixIsStable(all, m);
      var recent := SortNewestFirst(all)[..m];
      var newest := recent[0];
      Updates(newest.lastUpdatedBy, newest.itemName, newest.lastUpdatedAt, recent)
  }

  /** A record without a timestamp sorts as `""`, below every timestamp: once one appears in a
      newest-first list, every record after it lacks a timestamp or has the empty one. */
  lemma MissingTimestampsLast(s: seq<Item>, i: nat, j: nat)
    requires NewestFirst(s) && i < j < |s|
    requires s[i].lastUpdatedAt == None
    ensures Key(s[j]) == ""
  {
  }

  /** The newest record reported is the earliest record of the input that has the latest
      timestamp: every record before it is strictly older, none after it is newer. */
  lemma NewestIsEarliestOfLatest(all: seq<Item>)
    requires all != []
    ensures var newest := GetRecentUpdates(all).recentUpdates[0];
      exists i :: 0 <= i < |all| && all[i] == newest &&
                  (forall j :: 0 <= j < i ==> StrLe(Key(all[j]), Key(newest)) && Key(all[j]) != Key(newest)) &&
                  (forall j :: i < j < |all| ==> StrLe(Key(all[j]), Key(newest)))
  {
    var r := GetRecentUpdates(all);
    var recent := r.recentUpdates;
    var newest := recent[0];
    var k := Key(newest);
    assert WithKey(recent, k)[0] == newest;
    assert WithKey(recent, k) <= WithKey(all, k);
    WithKeyFirst(all, k);
    forall j | 0 <= j < |all| ensures StrLe(Key(all[j]), k) {
      var x := all[j];
      if x in multiset(recent) {
        var m :| 0 <= m < |recent| && recent[m] == x;
        if m == 0 {
          StrLeReflexive(k);
        }
      } else {
        assert x in multiset(all) - multiset(recent);
        if |recent| > 1 {
          StrLeTransitive(Key(x), Key(recent[|recent| - 1]), k);
        }
      }
    }
  }

  lemma {:induction false} WithKeyMembers(s: seq<Item>, k: string)
    ensures forall x :: x in WithKey(s, k) <==> x in s && Key(x) == k
  {
    if s != [] {
      WithKeyMembers(s[1..], k);
      assert s == [s[0]] + s[1..];
    }
  }

  lemma NewestFirstHead(s: seq<Item>, x: Item)
    requires NewestFirst(s) && x in s
    ensures StrLe(Key(x), Key(s[0]))
  {
    var m :| 0 <= m < |s| && s[m] == x;
    if m == 0 {
      StrLeReflexive(Key(x));
    }
  }

  /** A newest-first order that keeps the input order among equal timestamps is unique: two
      such arrangements of the same records are the same list. */
  lemma {:induction false} StableNewestFirstUnique(a: seq<Item>, b: seq<Item>)
    requires NewestFirst(a) && NewestFirst(b)
    requires forall k :: WithKey(a, k) == WithKey(b, k)
    ensures a == b
  {
    if a == [] && b == [] {
      return;
    }
    if b != [] {
      WithKeyMembers(b, Key(b[0]));
      WithKeyMembers(a, Key(b[0]));
      assert b[0] in WithKey(a, Key(b[0]));
    }
    if a != [] {
      WithKeyMembers(a, Key(a[0]));
      WithKeyMembers(b, Key(a[0]));
      assert a[0] in WithKey(b, Key(a[0]));
    }
    var k0 := Key(a[0]);
    NewestFirstHead(a, b[0]);
    NewestFirstHead(b, a[0]);
    StrLeAntisymmetric(Key(a[0]), Key(b[0]));
    assert Key(b[0]) == k0;
    assert WithKey(a, k0) == [a[0]] + WithKey(a[1..], k0);
    assert WithKey(b, k0) == [b[0]] + WithKey(b[1..], k0);
    assert WithKey(a, k0) == WithKey(b, k0);
    assert WithKey(a, k0)[0] == a[0] && WithKey(b, k0)[0] == b[0];
    forall k ensures WithKey(a[1..], k) == WithKey(b[1..], k) {
      if k != k0 {
        assert WithKey(a, k) == WithKey(a[1..], k);
        assert WithKey(b, k) == WithKey(b[1..], k);
      } else {
        assert WithKey(a[1..], k) == WithKey(a, k)[1..];
        assert WithKey(b[1..], k) == WithKey(b, k)[1..];
      }
    }
    StableNewestFirstUnique(a[1..], b[1..]);
    assert a == [a[0]] + a[1..];
    assert b == [b[0]] + b[1..];
  }

  /** Any stable newest-first sort, Python's `sorted(..., reverse=True)` among them, returns
      exactly `SortNewestFirst`. */
  lemma SortIsTheStableSort(all: seq<Item>, sorted: seq<Item>)
    requires NewestFirst(sorted)
    requires forall k :: WithKey(sorted, k) == WithKey(all, k)
    ensures sorted == SortNewestFirst(all)
  {
    SortIsNewestFirst(all);
    forall k ensures WithKey(sorted, k) == WithKey(SortNewestFirst(all), k) {
      SortIsStable(all, k);
    }
    StableNewestFirstUnique(sorted, SortNewestFirst(all));
  }
}
