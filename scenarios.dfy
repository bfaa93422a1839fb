/** Worked examples of the recorder and the hourly rollup on concrete data. */
module Scenarios {
  import opened Aggregation
  import opened Events

  function SourceRow(credentialId: int, action: string, t: nat): Raw<SourceAttrs>
  {
    Raw(SourceAttrs(credentialId, "github", false, action), t)
  }

  /** Three source rows within the first hour, rolled up at now = 4000
      (cutoff 400): two groups, counted 2 and 1, both stamped at hour 0. */
  lemma {:induction false} ThreeRowsTwoGroups()
    ensures Rollup([SourceRow(1, "add", 100), SourceRow(1, "add", 200), SourceRow(2, "add", 150)], 4000)
         == [Hourly(SourceAttrs(1, "github", false, "add"), 0, 2),
             Hourly(SourceAttrs(2, "github", false, "add"), 0, 1)]
  {
    var a1 := SourceAttrs(1, "github", false, "add");
    var a2 := SourceAttrs(2, "github", false, "add");
    ThreeRowsKeys();
    TwoGroupsCounted(a1, a2);
  }

  lemma ThreeRowsKeys()
    ensures Keys(Eligible([SourceRow(1, "add", 100), SourceRow(1, "add", 200), SourceRow(2, "add", 150)], 4000))
         == [Group(SourceAttrs(1, "github", false, "add"), 0), Group(SourceAttrs(1, "github", false, "add"), 0),
             Group(SourceAttrs(2, "github", false, "add"), 0)]
  {
    var rows := [SourceRow(1, "add", 100), SourceRow(1, "add", 200), SourceRow(2, "add", 150)];
    assert Eligible(rows[2..], 4000) == rows[2..];
    assert Eligible(rows[1..], 4000) == rows[1..];
    assert Eligible(rows, 4000) == rows;
  }

  lemma TwoGroupsCounted(a1: SourceAttrs, a2: SourceAttrs)
    requires a1 != a2
    ensures GroupCount([Group(a1, 0), Group(a1, 0), Group(a2, 0)]) == [Hourly(a1, 0, 2), Hourly(a2, 0, 1)]
  {
    var ks := [Group(a1, 0), Group(a1, 0), Group(a2, 0)];
    assert ks[..2] == [Group(a1, 0), Group(a1, 0)];
    assert ks[..2][..1] == [Group(a1, 0)];
    var g1 := GroupCount([Group(a1, 0)]);
    assert g1 == [Hourly(a1, 0, 1)];
    var g2 := GroupCount(ks[..2]);
    assert g2 == Bump(g1, Group(a1, 0));
    assert g2 == [Hourly(a1, 0, 2)];
    assert Bump(g2, Group(a2, 0)) == [Hourly(a1, 0, 2)] + Bump([], Group(a2, 0));
    assert GroupCount(ks) == Bump(g2, Group(a2, 0));
  }

  /** The same rows rolled up at now = 3700 (cutoff 100): none is strictly
      earlier than the cutoff, so nothing is appended. */
  lemma {:induction false} AtCutoffNothing()
    ensures Rollup([SourceRow(1, "add", 100), SourceRow(1, "add", 200), SourceRow(2, "add", 150)], 3700) == []
  {
  }

  /** Two rows in hour 0, at t = 100 and t = 3000, rolled up at now = 4000
      (cutoff 400): only the first is counted, so the hour-0 group is
      appended with count 1 although its hour holds two rows. */
  lemma {:induction false} HourSplitAcrossRuns()
    ensures Rollup([SourceRow(1, "add", 100), SourceRow(1, "add", 3000)], 4000)
         == [Hourly(SourceAttrs(1, "github", false, "add"), 0, 1)]
  {
  }

  /** A re-delivered event is an exact duplicate row, and both copies count. */
  lemma {:induction false} DuplicatesCounted()
    ensures Rollup([SourceRow(1, "add", 100), SourceRow(1, "add", 100)], 4000)
         == [Hourly(SourceAttrs(1, "github", false, "add"), 0, 2)]
  {
  }

  /** An event for an unknown endpoint yields no insert. */
  lemma BogusEndpointRejected(credentialId: int, action: string, created: nat)
    ensures Route(Event("bogus", credentialId, action, created, NoPayload)).None?
  {
  }

  /** An `sso` tag holding the string "true" or the integer 1 is not strictly true. */
  lemma SsoTagStrict(name: string)
    ensures !SsoFlag(Source(name, Some(JString("true"))))
    ensures !SsoFlag(Source(name, Some(JInt(1))))
    ensures !SsoFlag(Source(name, Some(JNull)))
    ensures !SsoFlag(Source(name, None))
    ensures SsoFlag(Source(name, Some(JBool(true))))
  {
  }
}
