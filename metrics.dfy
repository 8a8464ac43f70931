/** Usage metrics over parsed usage records: the total `useQuota` of each
    user, and the users flagged at least once as over their monthly quota.
    Quantities are exact reals, so a total is the same whatever order the
    records come in. */
module Metrics {
  import opened UsageCsv

  // ---------------------------------------------------------------------
  // Specification

  /** `records.filter((r) => r.user === user)`. */
  function OfUser(records: seq<UsageRecord>, user: string): seq<UsageRecord>
  {
    if records == [] then []
    else
      var last := records[|records| - 1];
      OfUser(records[..|records| - 1], user) + (if last.user == user then [last] else [])
  }

  /** `records.reduce((s, r) => s + r.useQuota, 0)`, a left fold. */
  function QuotaSum(records: seq<UsageRecord>): real
  {
    if records == [] then 0.0 else QuotaSum(records[..|records| - 1]) + records[|records| - 1].useQuota
  }

  /** The total usage of one user. */
  function UserTotal(records: seq<UsageRecord>, user: string): real
  {
    QuotaSum(OfUser(records, user))
  }

  /** The users that occur in the records (`UsersMeaning` spells it out). */
  function Users(records: seq<UsageRecord>): set<string>
  {
    if records == [] then {} else Users(records[..|records| - 1]) + {records[|records| - 1].user}
  }

  /** The map the accumulating loop builds, record by record. */
  function UsageMap(records: seq<UsageRecord>): map<string, real>
  {
    if records == [] then map[]
    else
      var m, r := UsageMap(records[..|records| - 1]), records[|records| - 1];
      m[r.user := (if r.user in m then m[r.user] else 0.0) + r.useQuota]
  }

  /** The users with at least one record whose flag is set. */
  function FlaggedUsers(records: seq<UsageRecord>): set<string>
  {
    set r | r in records && r.exceedsMonthlyQuota :: r.user
  }

  // ---------------------------------------------------------------------
  // The two loops

  /** `sumUsageByUser`: one entry per user, holding the sum of that user's
      `useQuota` values. */
  method SumUsageByUser(records: seq<UsageRecord>) returns (acc: map<string, real>)
    ensures acc.Keys == Users(records)
    ensures forall u :: u in acc <==> exists r :: r in records && r.user == u
    ensures forall u :: u in acc ==> acc[u] == UserTotal(records, u)
  {
    acc := map[];
    for i := 0 to |records|
      invariant acc == UsageMap(records[..i])
    {
      var r := records[i];
      var prev := if r.user in acc then acc[r.user] else 0.0;
      assert records[..i + 1][..i] == records[..i];
      acc := acc[r.user := prev + r.useQuota];
    }
    assert records[..|records|] == records;
    UsageMapTotals(records);
    UsersMeaningAll(records);
  }

  /** `usersExceedingMonthlyQuota`: the users having a record with the
      flag set. */
  method UsersExceedingMonthlyQuota(records: seq<UsageRecord>) returns (s: set<string>)
    ensures forall u :: u in s <==> exists r :: r in records && r.user == u && r.exceedsMonthlyQuota
  {
    s := {};
    for i := 0 to |records|
      invariant s == FlaggedUsers(records[..i])
    {
      var r := records[i];
      if r.exceedsMonthlyQuota {
        s := s + {r.user};
      }
      assert records[..i + 1] == records[..i] + [r];
    }
    assert records[..|records|] == records;
  }

  // ---------------------------------------------------------------------
  // Properties of the totals

  /** A user absent from the records has no record and a zero total. */
  lemma {:induction false} AbsentUserTotal(records: seq<UsageRecord>, user: string)
    requires user !in Users(records)
    ensures OfUser(records, user) == [] && UserTotal(records, user) == 0.0
  {
    if records != [] {
      AbsentUserTotal(records[..|records| - 1], user);
    }
  }

  /** A user is in `Users` exactly when some record is theirs. */
  lemma {:induction false} UsersMeaning(records: seq<UsageRecord>, u: string)
    ensures u in Users(records) <==> exists r :: r in records && r.user == u
  {
    if records != [] {
      var init, last := records[..|records| - 1], records[|records| - 1];
      assert records == init + [last];
      UsersMeaning(init, u);
      if u in Users(init) {
        var r :| r in init && r.user == u;
        assert r in records;
      }
      if exists r :: r in records && r.user == u {
        var r :| r in records && r.user == u;
        assert r in init || r == last;
      }
    }
  }

  lemma UsersMeaningAll(records: seq<UsageRecord>)
    ensures forall u :: u in Users(records) <==> exists r :: r in records && r.user == u
  {
    forall u ensures u in Users(records) <==> exists r :: r in records && r.user == u {
      UsersMeaning(records, u);
    }
  }

  /** The accumulated map has one key per user, holding that user's
      total. */
  lemma {:induction false} UsageMapTotals(records: seq<UsageRecord>)
    ensures UsageMap(records).Keys == Users(records)
    ensures forall u :: u in UsageMap(records) ==> UsageMap(records)[u] == UserTotal(records, u)
  {
    if records != [] {
      var init, r := records[..|records| - 1], records[|records| - 1];
      assert records == init + [r];
      UsageMapTotals(init);
      UsersStep(init, r);
      forall u | u in UsageMap(records) ensures UsageMap(records)[u] == UserTotal(records, u) {
        AddRecord(UsageMap(init), init, r, u);
      }
    }
  }

  /** One record more keeps each entry equal to its user's total. */
  lemma AddRecord(acc: map<string, real>, done: seq<UsageRecord>, r: UsageRecord, u: string)
    requires acc.Keys == Users(done)
    requires u in acc ==> acc[u] == UserTotal(done, u)
    requires u == r.user || u in acc
    ensures (if u == r.user then (if u in acc then acc[u] else 0.0) + r.useQuota else acc[u])
         == UserTotal(done + [r], u)
  {
    TotalStep(done, r, u);
    if u !in acc {
      AbsentUserTotal(done, u);
    }
  }

  /** One more record adds its user to the users ... */
  lemma UsersStep(init: seq<UsageRecord>, r: UsageRecord)
    ensures Users(init + [r]) == Users(init) + {r.user}
  {
    assert (init + [r])[..|init|] == init;
  }

  /** ... and its quota to that user's total, and to no other. */
  lemma TotalStep(init: seq<UsageRecord>, r: UsageRecord, u: string)
    ensures UserTotal(init + [r], u) == UserTotal(init, u) + (if r.user == u then r.useQuota else 0.0)
  {
    UserTotalAppend(init, [r], u);
    UserTotalOne(r, u);
  }

  /** Nothing in, nothing out. */
  lemma EmptyInput()
    ensures Users([]) == {} && FlaggedUsers([]) == {}
    ensures forall u :: UserTotal([], u) == 0.0
  {
  }

  lemma {:induction false} OfUserAppend(a: seq<UsageRecord>, b: seq<UsageRecord>, user: string)
    ensures OfUser(a + b, user) == OfUser(a, user) + OfUser(b, user)
    decreases |b|
  {
    if b == [] {
      assert a + b == a;
    } else {
      var init := b[..|b| - 1];
      assert (a + b)[..|a + b| - 1] == a + init;
      OfUserAppend(a, init, user);
    }
  }

  lemma {:induction false} QuotaSumAppend(a: seq<UsageRecord>, b: seq<UsageRecord>)
    ensures QuotaSum(a + b) == QuotaSum(a) + QuotaSum(b)
    decreases |b|
  {
    if b == [] {
      assert a + b == a;
    } else {
      var init := b[..|b| - 1];
      assert (a + b)[..|a + b| - 1] == a + init;
      QuotaSumAppend(a, init);
    }
  }

  /** Totals add up over a split of the records. */
  lemma UserTotalAppend(a: seq<UsageRecord>, b: seq<UsageRecord>, user: string)
    ensures UserTotal(a + b, user) == UserTotal(a, user) + UserTotal(b, user)
  {
    OfUserAppend(a, b, user);
    QuotaSumAppend(OfUser(a, user), OfUser(b, user));
  }

  /** The total of a single record. */
  lemma UserTotalOne(r: UsageRecord, user: string)
    ensures UserTotal([r], user) == if r.user == user then r.useQuota else 0.0
  {
    assert [r][..0] == [];
    if r.user == user {
      assert OfUser([r], user) == [r];
      assert QuotaSum([r]) == QuotaSum([]) + r.useQuota;
    } else {
      assert OfUser([r], user) == [];
    }
  }

  /** Reordering the records changes no user's total. */
  lemma {:induction false} UserTotalPermutation(a: seq<UsageRecord>, b: seq<UsageRecord>, user: string)
    requires multiset(a) == multiset(b)
    ensures UserTotal(a, user) == UserTotal(b, user)
    decreases |a|
  {
    if a == [] {
      assert b == [] by {
        assert |multiset(b)| == 0;
      }
    } else {
      var x := a[|a| - 1];
      var a' := a[..|a| - 1];
      assert a == a' + [x];
      assert x in multiset(b);
      var j :| 0 <= j < |b| && b[j] == x;
      var b' := b[..j] + b[j + 1..];
      assert b == b[..j] + [x] + b[j + 1..];
      assert multiset(a') == multiset(b') by {
        assert multiset(a) == multiset(a') + multiset{x};
        assert multiset(b) == multiset(b[..j]) + multiset{x} + multiset(b[j + 1..]);
        assert multiset(b') == multiset(b[..j]) + multiset(b[j + 1..]);
        assert multiset(a') == multiset(a) - multiset{x};
        assert multiset(b') == multiset(b) - multiset{x};
      }
      UserTotalPermutation(a', b', user);
      UserTotalAppend(a', [x], user);
      UserTotalAppend(b[..j] + [x], b[j + 1..], user);
      UserTotalAppend(b[..j], [x], user);
      UserTotalAppend(b[..j], b[j + 1..], user);
      UserTotalOne(x, user);
    }
  }

  /** So the whole usage map is the same for any order of the records. */
  lemma UsageMapPermutation(a: seq<UsageRecord>, b: seq<UsageRecord>)
    requires multiset(a) == multiset(b)
    ensures Users(a) == Users(b)
    ensures forall u :: UserTotal(a, u) == UserTotal(b, u)
  {
    forall u ensures UserTotal(a, u) == UserTotal(b, u) {
      UserTotalPermutation(a, b, u);
    }
    forall u ensures u in Users(a) <==> u in Users(b) {
      UsersMeaning(a, u);
      UsersMeaning(b, u);
      assert forall r :: r in a <==> r in b by {
        forall r ensures r in a <==> r in b {
          assert r in a <==> r in multiset(a);
          assert r in b <==> r in multiset(b);
        }
      }
    }
  }

  // ---------------------------------------------------------------------
  // Properties of the flagged set

  /** Every flagged user is a key of the usage map. */
  lemma FlaggedAreUsers(records: seq<UsageRecord>)
    ensures FlaggedUsers(records) <= Users(records)
  {
    forall u | u in FlaggedUsers(records) ensures u in Users(records) {
      UsersMeaning(records, u);
    }
  }

  /** The flagged set looks at users and flags only: records that agree on
      those give the same set, whatever their quotas. */
  lemma {:induction false} FlaggedIgnoresQuotas(a: seq<UsageRecord>, b: seq<UsageRecord>)
    requires |a| == |b|
    requires forall k :: 0 <= k < |a| ==>
      a[k].user == b[k].user && a[k].exceedsMonthlyQuota == b[k].exceedsMonthlyQuota
    ensures FlaggedUsers(a) == FlaggedUsers(b)
  {
    forall u | u in FlaggedUsers(a) ensures u in FlaggedUsers(b) {
      var r :| r in a && r.exceedsMonthlyQuota && r.user == u;
      var k :| 0 <= k < |a| && a[k] == r;
      assert b[k] in b;
    }
    forall u | u in FlaggedUsers(b) ensures u in FlaggedUsers(a) {
      var r :| r in b && r.exceedsMonthlyQuota && r.user == u;
      var k :| 0 <= k < |b| && b[k] == r;
      assert a[k] in a;
    }
  }
}
