/** The hourly rollup query of the metrics handler, as pure functions.

    The query keeps the raw rows created strictly before `now - 3600`,
    truncates each timestamp to the start of its hour, groups by the four
    non-time columns the recorder inserts plus that hour, and emits one row per group carrying
    `COUNT(*)`. Raw rows are `Raw(attrs, createdAt)`: `attrs` holds the
    category's non-time columns, so the group key of a raw row is
    `Group(attrs, hour)`.
 */
module Aggregation {

  /** Width of one hourly bucket, in seconds. */
  const HourSeconds: nat := 3600

  /** A raw metric row: the category's columns and its creation time (epoch seconds). */
  datatype Raw<A> = Raw(attrs: A, createdAt: nat)

  /** An hourly row: the category's columns, the start of the hour, and COUNT(*). */
  datatype Hourly<A> = Hourly(attrs: A, createdAt: nat, count: nat)

  /** A GROUP BY key: the category's columns and the start of an hour. */
  datatype Group<A> = Group(attrs: A, hour: nat)

  /** DATE_TRUNC('hour', t) on epoch seconds. */
  function Hour(t: nat): (b: nat)
    ensures b % HourSeconds == 0
    ensures b <= t < b + HourSeconds
  {
    t - t % HourSeconds
  }

  /** The hour containing t is the only hour boundary within one hour below t. */
  lemma HourUnique(t: nat, b: nat)
    requires b % HourSeconds == 0 && b <= t < b + HourSeconds
    ensures Hour(t) == b
  {
  }

  /** Two timestamps share a bucket exactly when they have the same hour index. */
  lemma SameHourIff(s: nat, t: nat)
    ensures Hour(s) == Hour(t) <==> s / HourSeconds == t / HourSeconds
  {
  }

  /** The boundary cases: 3599 and 3600 differ, 3600 and 7199 agree. */
  lemma HourBoundaries()
    ensures Hour(3599) != Hour(3600)
    ensures Hour(3600) == Hour(7199)
    ensures Hour(3599) == 0 && Hour(3600) == 3600
  {
  }

  /** The WHERE clause: a row is rolled up when created strictly before now - 3600. */
  predicate IsEligible<A(==,!new)>(r: Raw<A>, now: nat)
    ensures IsEligible(r, now) ==> Hour(r.createdAt) + HourSeconds < now
    ensures !IsEligible(r, now) ==> now <= r.createdAt + HourSeconds
  {
    r.createdAt < now - HourSeconds
  }

  /** The rows the WHERE clause keeps, in table order. */
  function Eligible<A(==,!new)>(rows: seq<Raw<A>>, now: nat): (e: seq<Raw<A>>)
    ensures |e| <= |rows|
    ensures forall r :: r in e <==> r in rows && IsEligible(r, now)
    ensures forall i :: 0 <= i < |e| ==> IsEligible(e[i], now)
    ensures forall r :: multiset(e)[r] == if IsEligible(r, now) then multiset(rows)[r] else 0
  {
    if rows == [] then []
    else
      assert rows == [rows[0]] + rows[1..];
      if IsEligible(rows[0], now) then [rows[0]] + Eligible(rows[1..], now)
      else Eligible(rows[1..], now)
  }

  /** The reference size of the WHERE result: the number of positions of the
      table holding a row created before the cutoff. */
  function NumEligible<A(==,!new)>(rows: seq<Raw<A>>, now: nat): nat
  {
    if rows == [] then 0
    else (if IsEligible(rows[0], now) then 1 else 0) + NumEligible(rows[1..], now)
  }

  /** The GROUP BY key of a raw row: its columns with the timestamp truncated to the hour. */
  function Key<A(==,!new)>(r: Raw<A>): (k: Group<A>)
    ensures k.attrs == r.attrs
    ensures k.hour % HourSeconds == 0
    ensures k.hour <= r.createdAt < k.hour + HourSeconds
  {
    Group(r.attrs, Hour(r.createdAt))
  }

  /** The keys of a sequence of rows, in order. */
  function Keys<A(==,!new)>(rows: seq<Raw<A>>): (ks: seq<Group<A>>)
    ensures |ks| == |rows|
    ensures forall i :: 0 <= i < |rows| ==> ks[i] == Key(rows[i])
  {
    if rows == [] then [] else [Key(rows[0])] + Keys(rows[1..])
  }

  /** The group an hourly row stands for. */
  function GroupOf<A(==,!new)>(h: Hourly<A>): Group<A>
  {
    Group(h.attrs, h.createdAt)
  }

  /** Sum of the counts of a sequence of hourly rows. */
  function Total<A(==,!new)>(gs: seq<Hourly<A>>): nat
  {
    if gs == [] then 0 else gs[0].count + Total(gs[1..])
  }

  /** Sum of the counts of the hourly rows standing for group g. */
  function CountOf<A(==,!new)>(gs: seq<Hourly<A>>, g: Group<A>): nat
  {
    if gs == [] then 0
    else (if GroupOf(gs[0]) == g then gs[0].count else 0) + CountOf(gs[1..], g)
  }

  /** No two hourly rows stand for the same group. */
  predicate DistinctGroups<A(==,!new)>(gs: seq<Hourly<A>>)
  {
    forall i, j :: 0 <= i < j < |gs| ==> GroupOf(gs[i]) != GroupOf(gs[j])
  }

  /** Every hourly row counts at least one raw row. */
  predicate Positive<A(==,!new)>(gs: seq<Hourly<A>>)
  {
    forall i :: 0 <= i < |gs| ==> gs[i].count >= 1
  }

  /** The groups present in a sequence of hourly rows. */
  function Groups<A(==,!new)>(gs: seq<Hourly<A>>): set<Group<A>>
  {
    set i | 0 <= i < |gs| :: GroupOf(gs[i])
  }

  /** Adds one row with key k to the running aggregate: increments its group's
      count, or appends a new group with count 1. */
  function Bump<A(==,!new)>(gs: seq<Hourly<A>>, k: Group<A>): (r: seq<Hourly<A>>)
    ensures |gs| <= |r| <= |gs| + 1
  {
    if gs == [] then [Hourly(k.attrs, k.hour, 1)]
    else if GroupOf(gs[0]) == k then [gs[0].(count := gs[0].count + 1)] + gs[1..]
    else [gs[0]] + Bump(gs[1..], k)
  }

  /** GROUP BY key with COUNT(*), groups listed in order of first occurrence:
      each group once, every count positive, counts summing to the rows grouped. */
  function GroupCount<A(==,!new)>(ks: seq<Group<A>>): (r: seq<Hourly<A>>)
    ensures DistinctGroups(r)
    ensures Positive(r)
    ensures Total(r) == |ks|
  {
    if ks == [] then []
    else
      var init := GroupCount(ks[..|ks| - 1]);
      var k := ks[|ks| - 1];
      BumpDistinct(init, k);
      BumpPositive(init, k);
      BumpTotal(init, k);
      Bump(init, k)
  }

  /** The whole INSERT ... SELECT: the rows appended to the hourly table.
      One row per group, each counting at least one raw row, the counts
      adding up to the number of raw rows the WHERE clause keeps. */
  function Rollup<A(==,!new)>(rows: seq<Raw<A>>, now: nat): (r: seq<Hourly<A>>)
    ensures DistinctGroups(r)
    ensures Positive(r)
    ensures Total(r) == |Eligible(rows, now)|
  {
    GroupCount(Keys(Eligible(rows, now)))
  }

  /** The reference count: raw rows that pass the cutoff and fall in group g. */
  function CountMatching<A(==,!new)>(rows: seq<Raw<A>>, now: nat, g: Group<A>): nat
  {
    if rows == [] then 0
    else (if IsEligible(rows[0], now) && Key(rows[0]) == g then 1 else 0)
         + CountMatching(rows[1..], now, g)
  }

  // ---------------------------------------------------------------------
  // Bump

  lemma {:induction false} BumpTotal<A(!new)>(gs: seq<Hourly<A>>, k: Group<A>)
    ensures Total(Bump(gs, k)) == Total(gs) + 1
  {
    if gs != [] && GroupOf(gs[0]) != k {
      BumpTotal(gs[1..], k);
      assert Bump(gs, k)[1..] == Bump(gs[1..], k);
    } else if gs != [] {
      assert Bump(gs, k)[1..] == gs[1..];
    }
  }

  lemma {:induction false} BumpCountOf<A(!new)>(gs: seq<Hourly<A>>, k: Group<A>, g: Group<A>)
    ensures CountOf(Bump(gs, k), g) == CountOf(gs, g) + (if g == k then 1 else 0)
  {
    if gs != [] && GroupOf(gs[0]) != k {
      BumpCountOf(gs[1..], k, g);
      assert Bump(gs, k)[1..] == Bump(gs[1..], k);
    } else if gs != [] {
      assert Bump(gs, k)[1..] == gs[1..];
    }
  }

  lemma {:induction false} BumpGroups<A(!new)>(gs: seq<Hourly<A>>, k: Group<A>)
    ensures Groups(Bump(gs, k)) == Groups(gs) + {k}
  {
    var r := Bump(gs, k);
    if gs == [] {
      assert GroupOf(r[0]) == k;
    } else if GroupOf(gs[0]) == k {
      forall i | 0 <= i < |gs| ensures GroupOf(r[i]) == GroupOf(gs[i]) { }
      assert Groups(r) == Groups(gs) by {
        forall g | g in Groups(r) ensures g in Groups(gs) {
          var i :| 0 <= i < |r| && GroupOf(r[i]) == g;
        }
        forall g | g in Groups(gs) ensures g in Groups(r) {
          var i :| 0 <= i < |gs| && GroupOf(gs[i]) == g;
        }
      }
    } else {
      BumpGroups(gs[1..], k);
      assert r[1..] == Bump(gs[1..], k);
      GroupsCons(gs);
      GroupsCons(r);
    }
  }

  lemma GroupsCons<A(!new)>(gs: seq<Hourly<A>>)
    requires gs != []
    ensures Groups(gs) == {GroupOf(gs[0])} + Groups(gs[1..])
  {
  }

  lemma {:induction false} BumpDistinct<A(!new)>(gs: seq<Hourly<A>>, k: Group<A>)
    requires DistinctGroups(gs)
    ensures DistinctGroups(Bump(gs, k))
  {
    var r := Bump(gs, k);
    if gs == [] {
    } else if GroupOf(gs[0]) == k {
      assert forall i :: 0 <= i < |gs| ==> GroupOf(r[i]) == GroupOf(gs[i]);
    } else {
      var tail := gs[1..];
      assert DistinctGroups(tail) by {
        forall i, j | 0 <= i < j < |tail| ensures GroupOf(tail[i]) != GroupOf(tail[j]) {
          assert GroupOf(gs[i + 1]) != GroupOf(gs[j + 1]);
        }
      }
      BumpDistinct(tail, k);
      BumpGroups(tail, k);
      GroupsCons(gs);
      assert r[1..] == Bump(tail, k);
      assert GroupOf(gs[0]) !in Groups(tail) by {
        forall j | 0 <= j < |tail| ensures GroupOf(tail[j]) != GroupOf(gs[0]) {
          assert tail[j] == gs[j + 1];
        }
      }
      forall i, j | 0 <= i < j < |r| ensures GroupOf(r[i]) != GroupOf(r[j]) {
        if i == 0 {
          assert GroupOf(r[j]) == GroupOf(r[1..][j - 1]);
          assert GroupOf(r[1..][j - 1]) in Groups(Bump(tail, k));
        } else {
          assert GroupOf(r[i]) == GroupOf(Bump(tail, k)[i - 1]);
          assert GroupOf(r[j]) == GroupOf(Bump(tail, k)[j - 1]);
        }
      }
    }
  }

  lemma {:induction false} BumpPositive<A(!new)>(gs: seq<Hourly<A>>, k: Group<A>)
    requires Positive(gs)
    ensures Positive(Bump(gs, k))
  {
    if gs != [] && GroupOf(gs[0]) != k {
      var tail := gs[1..];
      assert Positive(tail) by {
        forall i | 0 <= i < |tail| ensures tail[i].count >= 1 { assert tail[i] == gs[i + 1]; }
      }
      BumpPositive(tail, k);
      assert Bump(gs, k)[1..] == Bump(tail, k);
    }
  }

  // ---------------------------------------------------------------------
  // GroupCount

  /** The count recorded for group g is the number of occurrences of g. */
  lemma {:induction false} GroupCountOf<A(!new)>(ks: seq<Group<A>>, g: Group<A>)
    ensures CountOf(GroupCount(ks), g) == multiset(ks)[g]
  {
    if ks != [] {
      var init := ks[..|ks| - 1];
      GroupCountOf(init, g);
      BumpCountOf(GroupCount(init), ks[|ks| - 1], g);
      assert ks == init + [ks[|ks| - 1]];
    }
  }

  /** The groups of the aggregate are exactly the keys that occur. */
  lemma {:induction false} GroupCountGroups<A(!new)>(ks: seq<Group<A>>)
    ensures Groups(GroupCount(ks)) == set k | k in ks
  {
    if ks != [] {
      var init := ks[..|ks| - 1];
      GroupCountGroups(init);
      BumpGroups(GroupCount(init), ks[|ks| - 1]);
      assert ks == init + [ks[|ks| - 1]];
    }
  }

  /** With distinct groups, CountOf reads off the one row of that group. */
  lemma {:induction false} CountOfDistinct<A(!new)>(gs: seq<Hourly<A>>, i: nat)
    requires DistinctGroups(gs) && i < |gs|
    ensures CountOf(gs, GroupOf(gs[i])) == gs[i].count
  {
    var tail := gs[1..];
    assert DistinctGroups(tail) by {
      forall a, b | 0 <= a < b < |tail| ensures GroupOf(tail[a]) != GroupOf(tail[b]) {
        assert GroupOf(gs[a + 1]) != GroupOf(gs[b + 1]);
      }
    }
    if i == 0 {
      CountOfAbsent(tail, GroupOf(gs[0]));
    } else {
      assert tail[i - 1] == gs[i];
      CountOfDistinct(tail, i - 1);
    }
  }

  lemma {:induction false} CountOfAbsent<A(!new)>(gs: seq<Hourly<A>>, g: Group<A>)
    requires forall j :: 0 <= j < |gs| ==> GroupOf(gs[j]) != g
    ensures CountOf(gs, g) == 0
  {
    if gs != [] {
      CountOfAbsent(gs[1..], g);
    }
  }

  // ---------------------------------------------------------------------
  // Rollup against the raw table

  /** Counting keys of eligible rows is counting matching raw rows. */
  lemma {:induction false} KeysMultiset<A(!new)>(rows: seq<Raw<A>>, now: nat, g: Group<A>)
    ensures multiset(Keys(Eligible(rows, now)))[g] == CountMatching(rows, now, g)
  {
    if rows != [] {
      KeysMultiset(rows[1..], now, g);
      if IsEligible(rows[0], now) {
        assert Eligible(rows, now) == [rows[0]] + Eligible(rows[1..], now);
        assert Keys(Eligible(rows, now))
            == [Key(rows[0])] + Keys(Eligible(rows[1..], now));
      }
    }
  }

  /** Every hourly row's count is the number of eligible raw rows of its group,
      and that count is at least one. */
  lemma RollupCounts<A(!new)>(rows: seq<Raw<A>>, now: nat, i: nat)
    requires i < |Rollup(rows, now)|
    ensures Rollup(rows, now)[i].count == CountMatching(rows, now, GroupOf(Rollup(rows, now)[i]))
    ensures Rollup(rows, now)[i].count >= 1
  {
    var ks := Keys(Eligible(rows, now));
    CountOfDistinct(GroupCount(ks), i);
    GroupCountOf(ks, GroupOf(GroupCount(ks)[i]));
    KeysMultiset(rows, now, GroupOf(GroupCount(ks)[i]));
  }

  /** The counts sum to the number of positions of the raw table holding a
      row created before the cutoff; duplicate rows each count. */
  lemma RollupTotal<A(!new)>(rows: seq<Raw<A>>, now: nat)
    ensures Total(Rollup(rows, now)) == NumEligible(rows, now)
  {
  }

  lemma {:induction false} EligibleSize<A(!new)>(rows: seq<Raw<A>>, now: nat)
    ensures |Eligible(rows, now)| == NumEligible(rows, now)
  {
    if rows != [] {
      EligibleSize(rows[1..], now);
    }
  }

  /** The groups of the rollup are exactly the keys of the eligible raw rows:
      every eligible raw row is represented, and no hourly row is invented. */
  lemma RollupGroups<A(!new)>(rows: seq<Raw<A>>, now: nat)
    ensures forall r :: r in rows && IsEligible(r, now) ==> Key(r) in Groups(Rollup(rows, now))
    ensures forall g :: g in Groups(Rollup(rows, now)) ==>
              exists r :: r in rows && IsEligible(r, now) && Key(r) == g
  {
    var e := Eligible(rows, now);
    var ks := Keys(e);
    GroupCountGroups(ks);
    forall r | r in rows && IsEligible(r, now) ensures Key(r) in Groups(Rollup(rows, now)) {
      var i :| 0 <= i < |e| && e[i] == r;
      assert ks[i] == Key(r);
    }
    forall g | g in Groups(Rollup(rows, now))
      ensures exists r :: r in rows && IsEligible(r, now) && Key(r) == g
    {
      var i :| 0 <= i < |ks| && ks[i] == g;
      assert e[i] in e;
    }
  }

  /** Bucketing: every hourly row starts on an hour, and every raw row it
      counts lies within that hour. */
  lemma RollupBuckets<A(!new)>(rows: seq<Raw<A>>, now: nat, i: nat, r: Raw<A>)
    requires i < |Rollup(rows, now)|
    requires r in rows && IsEligible(r, now) && Key(r) == GroupOf(Rollup(rows, now)[i])
    ensures Rollup(rows, now)[i].createdAt % HourSeconds == 0
    ensures Rollup(rows, now)[i].createdAt <= r.createdAt < Rollup(rows, now)[i].createdAt + HourSeconds
    ensures Rollup(rows, now)[i].attrs == r.attrs
  {
  }

  /** An hourly row's timestamp is on an hour boundary whatever rows it came from. */
  lemma RollupOnHour<A(!new)>(rows: seq<Raw<A>>, now: nat, i: nat)
    requires i < |Rollup(rows, now)|
    ensures Rollup(rows, now)[i].createdAt % HourSeconds == 0
  {
    var h := Rollup(rows, now)[i];
    RollupGroups(rows, now);
    assert GroupOf(h) in Groups(Rollup(rows, now));
    var r :| r in rows && IsEligible(r, now) && Key(r) == GroupOf(h);
  }

  /** The reference count adds up over consecutive stretches of the table. */
  lemma {:induction false} CountMatchingAppend<A(!new)>(a: seq<Raw<A>>, b: seq<Raw<A>>, now: nat, g: Group<A>)
    ensures CountMatching(a + b, now, g) == CountMatching(a, now, g) + CountMatching(b, now, g)
  {
    if a != [] {
      assert (a + b)[1..] == a[1..] + b;
      CountMatchingAppend(a[1..], b, now, g);
    } else {
      assert a + b == b;
    }
  }

  /** Removing the row at position j takes that row's contribution out of
      the reference count. */
  lemma CountMatchingRemove<A(!new)>(b: seq<Raw<A>>, j: nat, now: nat, g: Group<A>)
    requires j < |b|
    ensures CountMatching(b, now, g)
         == CountMatching([b[j]], now, g) + CountMatching(b[..j] + b[j + 1..], now, g)
  {
    assert b == b[..j] + [b[j]] + b[j + 1..];
    CountMatchingAppend(b[..j] + [b[j]], b[j + 1..], now, g);
    CountMatchingAppend(b[..j], [b[j]], now, g);
    CountMatchingAppend(b[..j], b[j + 1..], now, g);
  }

  lemma MultisetRemove<A(!new)>(a: seq<Raw<A>>, b: seq<Raw<A>>, j: nat)
    requires a != [] && j < |b| && b[j] == a[0] && multiset(a) == multiset(b)
    ensures multiset(a[1..]) == multiset(b[..j] + b[j + 1..])
  {
    assert a == [a[0]] + a[1..];
    assert b == b[..j] + [b[j]] + b[j + 1..];
    calc {
      multiset(a[1..]);
      multiset(a) - multiset([a[0]]);
      multiset(b) - multiset([a[0]]);
      multiset(b[..j]) + multiset(b[j + 1..]);
    }
  }

  /** The reference count depends only on the multiset of raw rows, not on
      their order in the table. */
  lemma {:induction false} CountMatchingPerm<A(!new)>(a: seq<Raw<A>>, b: seq<Raw<A>>, now: nat, g: Group<A>)
    requires multiset(a) == multiset(b)
    ensures CountMatching(a, now, g) == CountMatching(b, now, g)
    decreases |a|
  {
    if a == [] {
      assert |b| == |multiset(b)| == 0;
    } else {
      assert a[0] in multiset(b);
      var j :| 0 <= j < |b| && b[j] == a[0];
      MultisetRemove(a, b, j);
      CountMatchingPerm(a[1..], b[..j] + b[j + 1..], now, g);
      CountMatchingRemove(b, j, now, g);
      assert CountMatching(a, now, g) == CountMatching([a[0]], now, g) + CountMatching(a[1..], now, g);
    }
  }

  /** Insertion order does not matter: two raw tables holding the same rows,
      in any order, give every group the same count in the rollup. */
  lemma RollupPerm<A(!new)>(a: seq<Raw<A>>, b: seq<Raw<A>>, now: nat, g: Group<A>)
    requires multiset(a) == multiset(b)
    ensures CountOf(Rollup(a, now), g) == CountOf(Rollup(b, now), g)
  {
    GroupCountOf(Keys(Eligible(a, now)), g);
    GroupCountOf(Keys(Eligible(b, now)), g);
    KeysMultiset(a, now, g);
    KeysMultiset(b, now, g);
    CountMatchingPerm(a, b, now, g);
  }

  /** Rows at or after the cutoff contribute nothing: adding one does not
      change the rollup. */
  lemma {:induction false} RollupIgnoresLate<A(!new)>(rows: seq<Raw<A>>, now: nat, late: Raw<A>)
    requires !IsEligible(late, now)
    ensures Rollup(rows + [late], now) == Rollup(rows, now)
    ensures Rollup([late] + rows, now) == Rollup(rows, now)
  {
    EligibleAppendLate(rows, now, late);
    assert ([late] + rows)[1..] == rows;
  }

  lemma {:induction false} EligibleAppendLate<A(!new)>(rows: seq<Raw<A>>, now: nat, late: Raw<A>)
    requires !IsEligible(late, now)
    ensures Eligible(rows + [late], now) == Eligible(rows, now)
  {
    if rows != [] {
      assert (rows + [late])[1..] == rows[1..] + [late];
      EligibleAppendLate(rows[1..], now, late);
    } else {
      assert rows + [late] == [late];
    }
  }
}
