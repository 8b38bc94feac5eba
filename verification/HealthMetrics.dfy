/** Per-tunnel connection counters and the health score (connections/base/health_metrics.go). */
module HealthMetrics {

  /** The counters of one tunnel. `maxConn <= 0` means no per-tunnel limit. */
  datatype Metrics = Metrics(total: int, active: int, failed: int, paused: bool, maxConn: int) {

    predicate AcceptsNewConnections() {
      maxConn <= 0 || active < maxConn
    }

    function ErrorRate(): real {
      if total == 0 then 0.0 else failed as real / total as real
    }

    function LoadFactor(): real {
      if maxConn <= 0 then 0.0 else active as real / maxConn as real
    }

    predicate IsHealthy() {
      !paused && ErrorRate() < 0.5
    }

    function Score(): real {
      (1.0 - ErrorRate()) * 0.4 + (1.0 - LoadFactor()) * 0.3
      + (if AcceptsNewConnections() && IsHealthy() then 0.3 else 0.0)
    }

    /** What runs of non-overlapping calls keep (see StreamAdmission). */
    predicate InRange() {
      0 <= failed <= total && 0 <= active && (maxConn > 0 ==> active <= maxConn)
    }
  }

  lemma RatioInUnit(a: int, b: int)
    requires 0 <= a <= b && 0 < b
    ensures 0.0 <= a as real / b as real <= 1.0
  {
    var q := a as real / b as real;
    assert q * b as real == a as real;
  }

  /** The score of counters in range lies in [0, 1], and reaches 0.3 of it only with free capacity and health. */
  lemma ScoreInUnit(m: Metrics)
    requires m.InRange()
    ensures 0.0 <= m.ErrorRate() <= 1.0 && 0.0 <= m.LoadFactor() <= 1.0
    ensures 0.0 <= m.Score() <= 1.0
    ensures m.Score() > 0.7 ==> m.AcceptsNewConnections() && m.IsHealthy()
  {
    if m.total != 0 { RatioInUnit(m.failed, m.total); }
    if m.maxConn > 0 { RatioInUnit(m.active, m.maxConn); }
  }

  /** The error rate is the failed part of the total, the load factor the used part of the limit. */
  lemma RatesAreParts(m: Metrics)
    ensures if m.total == 0 then m.ErrorRate() == 0.0 else m.ErrorRate() * m.total as real == m.failed as real
    ensures if m.maxConn <= 0 then m.LoadFactor() == 0.0 else m.LoadFactor() * m.maxConn as real == m.active as real
  {
  }

  /** Healthy is a tunnel that is not paused and of whose connections fewer than half failed, or that had none. */
  lemma HealthyIff(m: Metrics)
    requires m.total >= 0
    ensures m.IsHealthy() <==> !m.paused && (m.total == 0 || 2 * m.failed < m.total)
  {
    if m.total > 0 {
      BelowHalf(m.failed, m.total);
    }
  }

  lemma BelowHalf(a: int, b: int)
    requires b > 0
    ensures a as real / b as real < 0.5 <==> 2 * a < b
  {
    var q := a as real / b as real;
    TimesKeepsOrder(q, 0.5, b as real);
    assert q * b as real == a as real;
  }

  lemma TimesKeepsOrder(x: real, y: real, d: real)
    requires d > 0.0
    ensures x < y <==> x * d < y * d
  {
    if x < y {
      assert (y - x) * d > 0.0;
    } else {
      assert (x - y) * d >= 0.0;
    }
  }

  /** Free for one more connection and healthy, in terms of the counters. */
  predicate HasCapacity(m: Metrics) {
    (m.maxConn <= 0 || m.active < m.maxConn) && !m.paused && (m.total == 0 || 2 * m.failed < m.total)
  }

  /** What each factor is worth: 0.4 of the error rate, 0.3 of the load factor, 0.3 for capacity. A tunnel
      without traffic scores 1. */
  lemma ScoreWorth(m: Metrics, m': Metrics)
    requires m.total >= 0 && m'.total >= 0
    ensures m.Score() - m'.Score() ==
            (m'.ErrorRate() - m.ErrorRate()) * 0.4 + (m'.LoadFactor() - m.LoadFactor()) * 0.3
            + (if HasCapacity(m) == HasCapacity(m') then 0.0 else if HasCapacity(m) then 0.3 else -0.3)
    ensures m == Metrics(0, 0, 0, false, m.maxConn) ==> m.Score() == 1.0
  {
    HealthyIff(m);
    HealthyIff(m');
  }

  lemma RatioMonotone(a: int, a': int, b: int)
    requires a <= a' && 0 < b
    ensures a as real / b as real <= a' as real / b as real
  {
    var q, q' := a as real / b as real, a' as real / b as real;
    assert q * b as real == a as real && q' * b as real == a' as real;
  }

  /** Higher is better: more failures or more load on the same tunnel never raise its score. */
  lemma ScoreMonotone(m: Metrics, worse: Metrics)
    requires m.total == worse.total >= 0 && m.maxConn == worse.maxConn
    requires m.failed <= worse.failed && m.active <= worse.active && (m.paused ==> worse.paused)
    ensures worse.Score() <= m.Score()
  {
    if m.total > 0 { RatioMonotone(m.failed, worse.failed, m.total); }
    if m.maxConn > 0 { RatioMonotone(m.active, worse.active, m.maxConn); }
  }

  class HealthMetrics {
    var total: int
    var active: int
    var failed: int
    var paused: bool
    var maxConn: int

    function Value(): Metrics
      reads this
    {
      Metrics(total, active, failed, paused, maxConn)
    }

    constructor (maxConnections: int)
      ensures Value() == Metrics(0, 0, 0, false, maxConnections)
    {
      total, active, failed, paused, maxConn := 0, 0, 0, false, maxConnections;
    }

    /** Lines 34-52: with no other call in between, admits exactly when the tunnel accepts connections. */
    method RecordConnection() returns (ok: bool)
      modifies this
      ensures ok == old(Value()).AcceptsNewConnections()
      ensures Value() == if ok
                         then old(Value()).(total := old(total) + 1, active := old(active) + 1, paused := false)
                         else old(Value()).(paused := true)
      ensures old(Value()).InRange() ==> Value().InRange()
    {
      if maxConn > 0 {
        var current := active;
        if current >= maxConn {
          paused := true;
          return false;
        }
      }
      total := total + 1;
      active := active + 1;
      paused := false;
      return true;
    }

    /** Lines 55-60. */
    method ReleaseConnection()
      modifies this`active
      ensures active == old(active) - 1
    {
      active := active - 1;
    }

    /** Lines 63-68. */
    method RecordFailure()
      modifies this`failed
      ensures failed == old(failed) + 1
    {
      failed := failed + 1;
    }
  }
}
