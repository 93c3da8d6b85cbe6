/**
 * The bounded reading history: a `deque(maxlen = DequeSize)` to which the
 * sampler appends one reading per tick, silently dropping the oldest one
 * once the deque is full.
 */
module History {
  import opened Readings

  /** The capacity the dashboard gives its history. */
  const DequeSize: nat := 20

  /** The deque `h` after `append(x)` when its `maxlen` is `cap`: only the newest `cap` entries stay. */
  function Append(h: seq<Reading>, x: Reading, cap: nat): seq<Reading> {
    var s := h + [x];
    if |s| <= cap then s else s[|s| - cap..]
  }

  /** The newest `min(|rs|, cap)` readings of `rs`, oldest first. */
  function Window(rs: seq<Reading>, cap: nat): seq<Reading> {
    rs[|rs| - Min(|rs|, cap)..]
  }

  /** The history after ticking the readings `rs` one after the other, starting from the empty deque. */
  function Run(rs: seq<Reading>, cap: nat): seq<Reading>
    decreases |rs|
  {
    if rs == [] then [] else Append(Run(rs[..|rs| - 1], cap), rs[|rs| - 1], cap)
  }

  lemma AppendLength(h: seq<Reading>, x: Reading, cap: nat)
    ensures |Append(h, x, cap)| == Min(|h| + 1, cap)
  {
  }

  /** While there is room, a tick only adds the new reading at the end. */
  lemma AppendNotFull(h: seq<Reading>, x: Reading, cap: nat)
    requires |h| < cap
    ensures Append(h, x, cap) == h + [x]
  {
  }

  /** On a full deque a tick drops the oldest reading and keeps the others in order. */
  lemma AppendFull(h: seq<Reading>, x: Reading, cap: nat)
    requires 0 < cap == |h|
    ensures Append(h, x, cap) == h[1..] + [x]
  {
    assert (h + [x])[1..] == h[1..] + [x];
  }

  /** The reading just appended is the newest entry of the history. */
  lemma AppendLatest(h: seq<Reading>, x: Reading, cap: nat)
    requires 0 < cap
    ensures |Append(h, x, cap)| > 0 && Append(h, x, cap)[|Append(h, x, cap)| - 1] == x
  {
  }

  /** Appending to the window of `rs` gives the window of `rs + [x]`. */
  lemma WindowStep(rs: seq<Reading>, x: Reading, cap: nat)
    ensures Append(Window(rs, cap), x, cap) == Window(rs + [x], cap)
  {
    var w := Window(rs, cap);
    var n := |rs|;
    if n < cap {
      assert w == rs;
      assert Window(rs + [x], cap) == rs + [x];
    } else if cap > 0 {
      assert w == rs[n - cap..];
      assert Append(w, x, cap) == w[1..] + [x];
      assert (rs + [x])[n + 1 - cap..] == rs[n - cap + 1..] + [x];
    }
  }

  /** After any sequence of ticks the history holds exactly the newest `min(N, cap)` readings. */
  lemma {:induction false} RunIsWindow(rs: seq<Reading>, cap: nat)
    ensures Run(rs, cap) == Window(rs, cap)
  {
    if rs != [] {
      var init, last := rs[..|rs| - 1], rs[|rs| - 1];
      RunIsWindow(init, cap);
      WindowStep(init, last, cap);
      assert init + [last] == rs;
    }
  }

  /** From the empty deque, N ticks leave `min(N, cap)` readings. */
  lemma RunLength(rs: seq<Reading>, cap: nat)
    ensures |Run(rs, cap)| == Min(|rs|, cap)
    ensures |Run(rs, cap)| <= cap
  {
    RunIsWindow(rs, cap);
  }

  /** After `cap + 1` ticks the first reading has been evicted and the rest are kept in order. */
  lemma RunEvictsFirst(rs: seq<Reading>, cap: nat)
    requires |rs| == cap + 1
    ensures Run(rs, cap) == rs[1..]
    ensures rs[0] !in rs[1..] ==> rs[0] !in Run(rs, cap)
  {
    RunIsWindow(rs, cap);
  }

  /** With the dashboard's capacity, the 21st tick evicts the first reading. */
  lemma DashboardEvictsFirst(rs: seq<Reading>)
    requires |rs| == DequeSize + 1
    ensures |Run(rs, DequeSize)| == DequeSize
    ensures Run(rs, DequeSize) == rs[1..]
  {
    RunEvictsFirst(rs, DequeSize);
  }

  /** Readings that all lie in the generated range give a history that does too. */
  lemma RunWellFormed(rs: seq<Reading>, cap: nat)
    requires AllWellFormed(rs)
    ensures AllWellFormed(Run(rs, cap))
  {
    RunIsWindow(rs, cap);
    forall r | r in Run(rs, cap) ensures r in rs {
      var k :| 0 <= k < |Run(rs, cap)| && Run(rs, cap)[k] == r;
      assert rs[|rs| - Min(|rs|, cap) + k] == r;
    }
  }

  /** If the clock never goes backwards, the history stays in timestamp order. */
  lemma AppendChronological(h: seq<Reading>, x: Reading, cap: nat)
    requires Chronological(h)
    requires h != [] ==> NotAfter(h[|h| - 1].timestamp, x.timestamp)
    ensures Chronological(Append(h, x, cap))
  {
    var s := h + [x];
    assert Chronological(s) by {
      forall i | 0 < i < |s| ensures NotAfter(s[i - 1].timestamp, s[i].timestamp) {
        if i < |h| {
          assert s[i - 1] == h[i - 1] && s[i] == h[i];
        }
      }
    }
    var r := Append(h, x, cap);
    var k := |s| - |r|;
    forall i | 0 < i < |r| ensures NotAfter(r[i - 1].timestamp, r[i].timestamp) {
      assert r[i - 1] == s[k + i - 1] && r[i] == s[k + i];
    }
  }

  /**
   * The single writer of the history. `produced` records, for the proofs
   * only, every reading ever built; the deque holds the newest of them.
   */
  class Sampler {
    const capacity: nat
    var history: seq<Reading>
    ghost var produced: seq<Reading>

    ghost predicate Valid()
      reads this
    {
      && |history| <= capacity
      && AllWellFormed(history)
      && history == Run(produced, capacity)
    }

    /** The empty deque created with `maxlen = capacity`. */
    constructor (capacity: nat)
      ensures Valid()
      ensures this.capacity == capacity && history == [] && produced == []
    {
      this.capacity := capacity;
      history := [];
      produced := [];
    }

    /**
     * One tick: builds the reading from the sampled temperatures and the
     * formatted clock, appends it to the deque and returns the snapshot of
     * the deque together with the new reading as the latest.
     */
    method Tick(northTemp: int, southTemp: int, timestamp: string) returns (snapshot: seq<Reading>, latest: Reading)
      requires Valid()
      requires InRange(northTemp) && InRange(southTemp)
      modifies this
      ensures Valid()
      ensures latest == Reading(northTemp, southTemp, timestamp)
      ensures produced == old(produced) + [latest]
      ensures history == Append(old(history), latest, capacity)
      ensures |history| == Min(|old(history)| + 1, capacity)
      ensures |history| == Min(|produced|, capacity)
      ensures |old(history)| < capacity ==> history == old(history) + [latest]
      ensures 0 < capacity == |old(history)| ==> history == old(history)[1..] + [latest]
      ensures snapshot == history
      ensures 0 < capacity ==> |snapshot| > 0 && snapshot[|snapshot| - 1] == latest
    {
      latest := Reading(northTemp, southTemp, timestamp);
      if |history| < capacity {
        AllWellFormedAppend(history, latest);
        history := history + [latest];
      } else if capacity > 0 {
        AppendFull(history, latest, capacity);
        AllWellFormedTail(history);
        AllWellFormedAppend(history[1..], latest);
        history := history[1..] + [latest];
      }
      assert (produced + [latest])[..|produced|] == produced;
      produced := produced + [latest];
      RunLength(produced, capacity);
      snapshot := history;
    }
  }
}
