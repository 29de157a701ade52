/** `get_most_active_user`: a histogram of records per updating user, built in an
    insertion-ordered dictionary, and the first user with the largest count. */
module ActiveUser {
  import opened Wrappers
  import opened Inventory

  /** The key a record without `last_updated_by` is counted under. */
  const UnknownUser := "unknown"

  /** `item.get("last_updated_by", "unknown")`. */
  function UserOf(item: Item): string {
    item.lastUpdatedBy.GetOr(UnknownUser)
  }

  /** The user key of every record, in order. */
  function Users(items: seq<Item>): (users: seq<string>)
    ensures |users| == |items|
    ensures forall i :: 0 <= i < |items| ==> users[i] == UserOf(items[i])
  {
    seq(|items|, i requires 0 <= i < |items| => UserOf(items[i]))
  }

  /** How many entries of `s` are `u`. */
  function Occurrences(s: seq<string>, u: string): nat {
    if s == [] then 0
    else Occurrences(s[..|s| - 1], u) + if s[|s| - 1] == u then 1 else 0
  }

  /** The entries of `s` without repetitions, each where it first occurs. */
  function Distinct(s: seq<string>): seq<string> {
    if s == [] then []
    else
      var d := Distinct(s[..|s| - 1]);
      if s[|s| - 1] in d then d else d + [s[|s| - 1]]
  }

  /** A Python dictionary from user to count: `order` is its key order (insertion order),
      `counts` its contents. */
  datatype UserCounts = UserCounts(order: seq<string>, counts: map<string, nat>)

  /** The dictionary's two parts agree: every key once in `order`, and nothing else. */
  ghost predicate WellFormed(h: UserCounts) {
    (forall i, j :: 0 <= i < j < |h.order| ==> h.order[i] != h.order[j]) &&
    (forall u :: u in h.counts <==> u in h.order)
  }

  /** The histogram of `s`, stated without reference to how it is built: the users that occur,
      in order of first occurrence, each with its number of occurrences. */
  function Histogram(s: seq<string>): UserCounts {
    UserCounts(Distinct(s), map u | u in s :: Occurrences(s, u))
  }

  /** The sum of the counts of `keys`. */
  function SumCounts(keys: seq<string>, counts: map<string, nat>): nat
    requires forall k :: k in keys ==> k in counts
  {
    if keys == [] then 0
    else SumCounts(keys[..|keys| - 1], counts) + counts[keys[|keys| - 1]]
  }

  /** The sum of all values of a well-formed dictionary. */
  function Total(h: UserCounts): nat
    requires WellFormed(h)
  {
    SumCounts(h.order, h.counts)
  }

  lemma {:induction false} DistinctMembers(s: seq<string>)
    ensures forall u :: u in Distinct(s) <==> u in s
  {
    if s != [] {
      var init := s[..|s| - 1];
      DistinctMembers(init);
      assert s == init + [s[|s| - 1]];
    }
  }

  lemma {:induction false} DistinctNoRepeats(s: seq<string>)
    ensures forall i, j :: 0 <= i < j < |Distinct(s)| ==> Distinct(s)[i] != Distinct(s)[j]
  {
    if s != [] {
      DistinctNoRepeats(s[..|s| - 1]);
    }
  }

  /** Reading more records only appends keys: the dictionary order of a prefix is a prefix
      of the dictionary order. */
  lemma {:induction false} DistinctPrefix(s: seq<string>, k: nat)
    requires k <= |s|
    ensures Distinct(s[..k]) <= Distinct(s)
  {
    if k < |s| {
      var init := s[..|s| - 1];
      assert s[..k] == init[..k];
      DistinctPrefix(init, k);
    } else {
      assert s[..k] == s;
    }
  }

  /** The histogram is a well-formed dictionary whose keys are exactly the users that occur. */
  lemma HistogramWellFormed(s: seq<string>)
    ensures WellFormed(Histogram(s))
    ensures forall u :: u in Histogram(s).counts <==> u in s
  {
    DistinctMembers(s);
    DistinctNoRepeats(s);
  }

  /** One more record: its user's count goes up by one, and a new user is appended with count 1. */
  lemma HistogramSnoc(s: seq<string>, x: string)
    ensures Histogram(s + [x]).order == if x in s then Histogram(s).order else Histogram(s).order + [x]
    ensures x in s ==> Histogram(s + [x]).counts == Histogram(s).counts[x := Histogram(s).counts[x] + 1]
    ensures x !in s ==> Histogram(s + [x]).counts == Histogram(s).counts[x := 1]
  {
    var t := s + [x];
    assert t[..|t| - 1] == s;
    DistinctMembers(s);
    forall u ensures Occurrences(t, u) == Occurrences(s, u) + if x == u then 1 else 0 {
    }
    if x !in s {
      assert Occurrences(s, x) == 0 by { OccurrencesAbsent(s, x); }
    }
  }

  lemma {:induction false} OccurrencesAbsent(s: seq<string>, u: string)
    requires u !in s
    ensures Occurrences(s, u) == 0
  {
    if s != [] {
      OccurrencesAbsent(s[..|s| - 1], u);
    }
  }

  lemma {:induction false} SumCountsAgree(keys: seq<string>, m1: map<string, nat>, m2: map<string, nat>)
    requires forall k :: k in keys ==> k in m1 && k in m2 && m1[k] == m2[k]
    ensures SumCounts(keys, m1) == SumCounts(keys, m2)
  {
    if keys != [] {
      SumCountsAgree(keys[..|keys| - 1], m1, m2);
    }
  }

  lemma {:induction false} SumCountsIncrement(keys: seq<string>, m: map<string, nat>, x: string)
    requires forall k :: k in keys ==> k in m
    requires forall i, j :: 0 <= i < j < |keys| ==> keys[i] != keys[j]
    requires x in keys
    ensures SumCounts(keys, m[x := m[x] + 1]) == SumCounts(keys, m) + 1
  {
    var init := keys[..|keys| - 1];
    var m' := m[x := m[x] + 1];
    if keys[|keys| - 1] == x {
      assert x !in init;
      SumCountsAgree(init, m', m);
    } else {
      SumCountsIncrement(init, m, x);
    }
  }

  lemma {:induction false} SumCountsAppend(keys: seq<string>, m: map<string, nat>, x: string)
    requires forall k :: k in keys ==> k in m
    requires x !in keys
    ensures SumCounts(keys + [x], m[x := 1]) == SumCounts(keys, m) + 1
  {
    var t := keys + [x];
    assert t[..|t| - 1] == keys;
    SumCountsAgree(keys, m[x := 1], m);
  }

  /** One more record of a user already counted adds one to the total. */
  lemma TotalSnocSeen(s: seq<string>, x: string)
    requires x in s
    ensures WellFormed(Histogram(s + [x])) && WellFormed(Histogram(s))
    ensures Total(Histogram(s + [x])) == Total(Histogram(s)) + 1
  {
    HistogramWellFormed(s);
    HistogramWellFormed(s + [x]);
    HistogramSnoc(s, x);
    var h := Histogram(s);
    SumCountsIncrement(h.order, h.counts, x);
    assert Histogram(s + [x]) == UserCounts(h.order, h.counts[x := h.counts[x] + 1]);
  }

  /** A record of a user not yet counted adds one to the total. */
  lemma TotalSnocNew(s: seq<string>, x: string)
    requires x !in s
    ensures WellFormed(Histogram(s + [x])) && WellFormed(Histogram(s))
    ensures Total(Histogram(s + [x])) == Total(Histogram(s)) + 1
  {
    HistogramWellFormed(s);
    HistogramWellFormed(s + [x]);
    HistogramSnoc(s, x);
    var h := Histogram(s);
    SumCountsAppend(h.order, h.counts, x);
    assert Histogram(s + [x]) == UserCounts(h.order + [x], h.counts[x := 1]);
  }

  /** The counts of the histogram add up to the number of records counted. */
  lemma {:induction false} HistogramTotal(s: seq<string>)
    ensures WellFormed(Histogram(s)) && Total(Histogram(s)) == |s|
  {
    HistogramWellFormed(s);
    if s != [] {
      var init, x := s[..|s| - 1], s[|s| - 1];
      assert s == init + [x];
      HistogramTotal(init);
      if x in init {
        TotalSnocSeen(init, x);
      } else {
        TotalSnocNew(init, x);
      }
    }
  }

  /** The loop of `get_most_active_user`: `user_counts[user] = user_counts.get(user, 0) + 1`
      for every record. */
  method CountUsers(items: seq<Item>) returns (h: UserCounts)
    ensures h == Histogram(Users(items))
  {
    h := UserCounts([], map[]);
    var i := 0;
    while i < |items|
      invariant 0 <= i <= |items|
      invariant h == Histogram(Users(items[..i]))
    {
      var user := UserOf(items[i]);
      ghost var seen := Users(items[..i]);
      assert Users(items[..i + 1]) == seen + [user];
      HistogramSnoc(seen, user);
      DistinctMembers(seen);
      if user in h.counts {
        h := UserCounts(h.order, h.counts[user := h.counts[user] + 1]);
      } else {
        h := UserCounts(h.order + [user], h.counts[user := 1]);
      }
      i := i + 1;
    }
    assert items[..i] == items;
  }

  /** `max(user_counts, key=user_counts.get)` behind `if not user_counts`: no user for an empty
      dictionary, otherwise the key with the largest count that comes first in key order. */
  method FirstMostFrequent(h: UserCounts) returns (best: Option<string>, count: nat)
    requires WellFormed(h)
    ensures h.order == [] ==> best == None && count == 0
    ensures h.order != [] ==> best.Some? && best.value in h.counts && count == h.counts[best.value]
    ensures forall u :: u in h.counts ==> h.counts[u] <= count
    ensures forall j :: 0 <= j < |h.order| && h.counts[h.order[j]] == count ==> best == Some(h.order[j]) || best.value in h.order[..j]
  {
    if h.order == [] {
      return None, 0;
    }
    var b := 0;
    var i := 1;
    while i < |h.order|
      invariant 0 <= b < i <= |h.order|
      invariant forall j :: 0 <= j < i ==> h.counts[h.order[j]] <= h.counts[h.order[b]]
      invariant forall j :: 0 <= j < b ==> h.counts[h.order[j]] < h.counts[h.order[b]]
    {
      if h.counts[h.order[i]] > h.counts[h.order[b]] {
        b := i;
      }
      i := i + 1;
    }
    best, count := Some(h.order[b]), h.counts[h.order[b]];
    forall j | 0 <= j < |h.order| && h.counts[h.order[j]] == count
      ensures best == Some(h.order[j]) || best.value in h.order[..j]
    {
      if j > b {
        assert h.order[..j][b] == h.order[b];
      } else {
        assert j == b;
      }
    }
  }

  /** The reply of `get_most_active_user`. */
  datatype ActiveUserReport = ActiveUserReport(mostActiveUser: Option<string>, count: nat, userCounts: UserCounts)

  /** `get_most_active_user`, over the whole inventory `all`. */
  method GetMostActiveUser(all: seq<Item>) returns (r: ActiveUserReport)
    ensures r.userCounts == Histogram(Users(all))
    ensures WellFormed(r.userCounts) && Total(r.userCounts) == |all|
    ensures all == [] ==> r.mostActiveUser == None && r.count == 0 && r.userCounts.counts == map[]
    ensures all != [] ==>
      r.mostActiveUser.Some? && r.mostActiveUser.value in r.userCounts.counts &&
      r.count == r.userCounts.counts[r.mostActiveUser.value]
    ensures forall u :: u in r.userCounts.counts ==> r.userCounts.counts[u] <= r.count
    ensures forall j ::
      (0 <= j < |all| && UserOf(all[j]) in r.userCounts.counts && r.userCounts.counts[UserOf(all[j])] == r.count) ==>
      r.mostActiveUser.value in Users(all)[..j + 1]
  {
    var h := CountUsers(all);
    var users := Users(all);
    HistogramTotal(users);
    HistogramWellFormed(users);
    var best, count := FirstMostFrequent(h);
    r := ActiveUserReport(best, count, h);
    if all == [] {
      assert users == [];
      assert h.counts == map[];
    }
    forall j | 0 <= j < |all| && UserOf(all[j]) in h.counts && h.counts[UserOf(all[j])] == count
      ensures best.value in users[..j + 1]
    {
      var v := users[j];
      var p := Distinct(users[..j + 1]);
      DistinctPrefix(users, j + 1);
      DistinctMembers(users[..j + 1]);
      assert v in users[..j + 1];
      var m :| 0 <= m < |p| && p[m] == v;
      assert h.order[m] == v;
      assert best == Some(h.order[m]) || best.value in h.order[..m];
      assert h.order[..m + 1] == p[..m + 1];
      assert best.value in p;
    }
  }
}
