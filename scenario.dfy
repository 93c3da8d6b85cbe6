/**
 * A worked run of the sampler and the comparison view: a history of
 * capacity 3 fed four readings keeps only the last three, and the last
 * reading reports Antarctica as the warmer place.
 */
module Scenario {
  import opened Readings
  import opened History
  import opened Views

  function R1(): Reading { Reading(-170, -165, "12:00:00") }
  function R2(): Reading { Reading(-160, -172, "12:00:05") }
  function R3(): Reading { Reading(-175, -175, "12:00:10") }
  function R4(): Reading { Reading(-168, -161, "12:00:15") }

  /** The same run on the specification functions alone. */
  lemma FourTicksOnThreeSlots()
    ensures Run([R1(), R2(), R3(), R4()], 3) == [R2(), R3(), R4()]
    ensures Warmer(R4()) == Message(WarmerInAntarctica, R4().timestamp)
  {
    RunEvictsFirst([R1(), R2(), R3(), R4()], 3);
    assert [R1(), R2(), R3(), R4()][1..] == [R2(), R3(), R4()];
  }

  /** Four ticks on a live sampler of capacity 3, using only the contracts of its operations. */
  method FourTicks(r1: Reading, r2: Reading, r3: Reading, r4: Reading) returns (snapshot: seq<Reading>, verdict: string)
    requires WellFormed(r1) && WellFormed(r2) && WellFormed(r3) && WellFormed(r4)
    ensures snapshot == [r2, r3, r4]
    ensures verdict == Warmer(r4)
  {
    var sampler := new Sampler(3);
    var s1, l1 := sampler.Tick(r1.northTemp, r1.southTemp, r1.timestamp);
    assert s1 == [r1];
    var s2, l2 := sampler.Tick(r2.northTemp, r2.southTemp, r2.timestamp);
    assert s2 == [r1, r2];
    var s3, l3 := sampler.Tick(r3.northTemp, r3.southTemp, r3.timestamp);
    assert s3 == [r1, r2, r3];
    var latest;
    snapshot, latest := sampler.Tick(r4.northTemp, r4.southTemp, r4.timestamp);
    assert latest == r4;
    assert [r1, r2, r3][1..] == [r2, r3];
    assert snapshot == [r2, r3] + [r4];
    assert [r2, r3] + [r4] == [r2, r3, r4];
    verdict := Warmer(latest);
  }
}
