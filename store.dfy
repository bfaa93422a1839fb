/** The metrics handler over its four tables.

    `HandleNewMetric` records one event (a single insert into the raw
    table of its category); `HandleHourlyMetrics` runs the hourly
    `INSERT ... SELECT ... GROUP BY` for one category, appending the rollup
    of that category's raw table to its hourly table. Nothing is ever
    deleted or updated: both operations only append.
 */
module Store {
  import opened Aggregation
  import opened Events

  class Database {
    var sourceMetrics: seq<Raw<SourceAttrs>>
    var gateMetrics: seq<Raw<GateAttrs>>
    var sourceMetricsHourly: seq<Hourly<SourceAttrs>>
    var gateMetricsHourly: seq<Hourly<GateAttrs>>

    /** A database with four empty tables. */
    constructor ()
      ensures sourceMetrics == [] && gateMetrics == []
      ensures sourceMetricsHourly == [] && gateMetricsHourly == []
    {
      sourceMetrics := [];
      gateMetrics := [];
      sourceMetricsHourly := [];
      gateMetricsHourly := [];
    }

    /** Records one event: appends the projected row to the raw table of its
        endpoint and returns true, or returns false and changes nothing. */
    method HandleNewMetric(e: Event) returns (ok: bool)
      requires WellFormed(e)
      modifies this
      ensures ok <==> e.endpoint == SourceEndpoint || e.endpoint == GateEndpoint
      ensures sourceMetricsHourly == old(sourceMetricsHourly)
      ensures gateMetricsHourly == old(gateMetricsHourly)
      ensures e.endpoint == SourceEndpoint ==>
                sourceMetrics == old(sourceMetrics) + [Route(e).value.sourceRow] &&
                gateMetrics == old(gateMetrics)
      ensures e.endpoint == GateEndpoint ==>
                gateMetrics == old(gateMetrics) + [Route(e).value.gateRow] &&
                sourceMetrics == old(sourceMetrics)
      ensures !ok ==> sourceMetrics == old(sourceMetrics) && gateMetrics == old(gateMetrics)
    {
      var ins := Route(e);
      match ins
      case Some(IntoSource(row)) =>
        sourceMetrics := sourceMetrics + [row];
        ok := true;
      case Some(IntoGate(row)) =>
        gateMetrics := gateMetrics + [row];
        ok := true;
      case None =>
        ok := false;
    }

    /** Runs the hourly rollup of one category at time `now`: appends
        Rollup(raw table, now) to that category's hourly table. Any other
        endpoint changes nothing. */
    method HandleHourlyMetrics(endpoint: string, now: nat)
      modifies this
      ensures sourceMetrics == old(sourceMetrics) && gateMetrics == old(gateMetrics)
      ensures endpoint == SourceEndpoint ==>
                sourceMetricsHourly == old(sourceMetricsHourly) + Rollup(sourceMetrics, now) &&
                gateMetricsHourly == old(gateMetricsHourly)
      ensures endpoint == GateEndpoint ==>
                gateMetricsHourly == old(gateMetricsHourly) + Rollup(gateMetrics, now) &&
                sourceMetricsHourly == old(sourceMetricsHourly)
      ensures endpoint != SourceEndpoint && endpoint != GateEndpoint ==>
                sourceMetricsHourly == old(sourceMetricsHourly) &&
                gateMetricsHourly == old(gateMetricsHourly)
    {
      if endpoint == SourceEndpoint {
        sourceMetricsHourly := sourceMetricsHourly + Rollup(sourceMetrics, now);
      } else if endpoint == GateEndpoint {
        gateMetricsHourly := gateMetricsHourly + Rollup(gateMetrics, now);
      }
    }
  }

  /** Running the hourly rollup twice with no new events appends the same
      groups a second time: nothing marks raw rows as consumed. */
  method RerunAppendsAgain(db: Database, now: nat)
    modifies db
    ensures db.sourceMetrics == old(db.sourceMetrics)
    ensures db.sourceMetricsHourly
         == old(db.sourceMetricsHourly) + Rollup(db.sourceMetrics, now) + Rollup(db.sourceMetrics, now)
  {
    db.HandleHourlyMetrics(SourceEndpoint, now);
    db.HandleHourlyMetrics(SourceEndpoint, now);
  }
}
