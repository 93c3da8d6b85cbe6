/**
 * One simulated reading of the dashboard: the Arctic ("north") and the
 * Antarctic ("south") temperature and the time the reading was taken.
 * Temperatures are integers in tenths of a degree Celsius, so the
 * one-decimal value -17.3 is -173.
 */
module Readings {
  /** Bounds of `random.uniform(-18, -16)` rounded to one decimal, in tenths. */
  const MinTenths: int := -180
  const MaxTenths: int := -160

  /** A reading is an immutable record; the timestamp is kept as an opaque string. */
  datatype Reading = Reading(northTemp: int, southTemp: int, timestamp: string)

  predicate InRange(t: int) {
    MinTenths <= t <= MaxTenths
  }

  /** Both temperatures lie in the generated range. */
  predicate WellFormed(r: Reading) {
    InRange(r.northTemp) && InRange(r.southTemp)
  }

  /** Every reading of `h` is well formed. */
  predicate AllWellFormed(h: seq<Reading>) {
    forall r :: r in h ==> WellFormed(r)
  }

  lemma AllWellFormedAppend(h: seq<Reading>, x: Reading)
    requires AllWellFormed(h) && WellFormed(x)
    ensures AllWellFormed(h + [x])
  {
    forall r | r in h + [x] ensures WellFormed(r) {
      assert r in h || r == x;
    }
  }

  lemma AllWellFormedTail(h: seq<Reading>)
    requires AllWellFormed(h) && h != []
    ensures AllWellFormed(h[1..])
  {
    forall r | r in h[1..] ensures WellFormed(r) {
      assert r in h;
    }
  }

  function Min(a: int, b: int): int {
    if a < b then a else b
  }

  /**
   * Lexicographic order on strings. For the fixed-width timestamp format
   * "%Y-%m-%d %H:%M:%S" it coincides with chronological order.
   */
  predicate NotAfter(a: string, b: string) {
    a == [] || (b != [] && (a[0] < b[0] || (a[0] == b[0] && NotAfter(a[1..], b[1..]))))
  }

  /** Consecutive readings carry non-decreasing timestamps. */
  predicate Chronological(h: seq<Reading>) {
    forall i :: 0 < i < |h| ==> NotAfter(h[i - 1].timestamp, h[i].timestamp)
  }
}
