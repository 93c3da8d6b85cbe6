/**
 * The read-only views the dashboard derives from one tick's snapshot and
 * latest reading: the two temperature texts, the comparison text and the
 * index series of the chart.
 */
module Views {
  import opened Wrappers
  import opened Readings
  import opened Format

  /** `display_temp`: the latest Antarctic temperature followed by " C". */
  function DisplayTemp(latest: Reading): string {
    FormatTenths(latest.southTemp) + " C"
  }

  /** `display_arctic_temp`: the latest Arctic temperature followed by " C". */
  function DisplayArcticTemp(latest: Reading): string {
    FormatTenths(latest.northTemp) + " C"
  }

  /** Reads a temperature text "<value> C" back to tenths. */
  function ParseDisplayed(s: string): Option<int> {
    if |s| >= 2 && s[|s| - 2..] == " C" then ParseTenths(s[..|s| - 2]) else None
  }

  lemma DisplayedRoundTrip(t: int)
    ensures ParseDisplayed(FormatTenths(t) + " C") == Some(t)
  {
    var s := FormatTenths(t) + " C";
    assert s[..|s| - 2] == FormatTenths(t);
    FormatTenthsRoundTrip(t);
  }

  /** The Antarctic box shows exactly the latest south temperature, in degrees C. */
  lemma DisplayTempShowsSouth(latest: Reading)
    ensures ParseDisplayed(DisplayTemp(latest)) == Some(latest.southTemp)
  {
    DisplayedRoundTrip(latest.southTemp);
  }

  /** The Arctic box shows exactly the latest north temperature, in degrees C. */
  lemma DisplayArcticTempShowsNorth(latest: Reading)
    ensures ParseDisplayed(DisplayArcticTemp(latest)) == Some(latest.northTemp)
  {
    DisplayedRoundTrip(latest.northTemp);
  }

  /** A generated temperature is shown as "-1d.d C". */
  lemma DisplayTempShape(latest: Reading)
    requires WellFormed(latest)
    ensures |DisplayTemp(latest)| == 7 && DisplayTemp(latest)[..2] == "-1"
    ensures |DisplayArcticTemp(latest)| == 7 && DisplayArcticTemp(latest)[..2] == "-1"
  {
    FormatInRange(latest.southTemp);
    FormatInRange(latest.northTemp);
  }

  /** The three outcomes of `warmer`. */
  datatype Comparison = WarmerInArctic | WarmerInAntarctica | SameTemperature

  function Compare(latest: Reading): Comparison {
    if latest.northTemp > latest.southTemp then WarmerInArctic
    else if latest.northTemp < latest.southTemp then WarmerInAntarctica
    else SameTemperature
  }

  function Ending(c: Comparison): string {
    match c
    case WarmerInArctic => " it is warmer in the Arctic"
    case WarmerInAntarctica => " it is warmer in Antarctica"
    case SameTemperature => " it is the same temperature in the Arctic and Antarctica"
  }

  /** The text shown for outcome `c` of a reading taken at `timestamp`. */
  function Message(c: Comparison, timestamp: string): string {
    "At " + timestamp + Ending(c)
  }

  /** `warmer`: the comparison text for the latest reading. */
  function Warmer(latest: Reading): string {
    Message(Compare(latest), latest.timestamp)
  }

  predicate EndsWith(s: string, suffix: string) {
    |suffix| <= |s| && s[|s| - |suffix|..] == suffix
  }

  /** Recovers the outcome and the timestamp from a comparison text. */
  function ParseMessage(m: string): Option<(Comparison, string)> {
    if |m| < 3 || m[..3] != "At " then None
    else if EndsWith(m[3..], Ending(WarmerInArctic)) then
      Some((WarmerInArctic, m[3..|m| - |Ending(WarmerInArctic)|]))
    else if EndsWith(m[3..], Ending(WarmerInAntarctica)) then
      Some((WarmerInAntarctica, m[3..|m| - |Ending(WarmerInAntarctica)|]))
    else if EndsWith(m[3..], Ending(SameTemperature)) then
      Some((SameTemperature, m[3..|m| - |Ending(SameTemperature)|]))
    else None
  }

  lemma SuffixOfSuffix(s: string, a: string, b: string)
    requires EndsWith(s, a) && EndsWith(s, b) && |a| <= |b|
    ensures EndsWith(b, a)
  {
    assert s[|s| - |a|..] == (s[|s| - |b|..])[|b| - |a|..];
  }

  /** A string is not a suffix of another when they differ `k` places from the end. */
  lemma NotSuffix(a: string, b: string, k: nat)
    requires 0 < k <= |a| <= |b| && a[|a| - k] != b[|b| - k]
    ensures !EndsWith(b, a)
  {
    assert b[|b| - |a|..][|a| - k] == b[|b| - k];
  }

  /** Which outcome endings could be suffixes of one another: none of the six pairs. */
  lemma EndingPairs()
    ensures !EndsWith(Ending(WarmerInAntarctica), Ending(WarmerInArctic))
    ensures !EndsWith(Ending(WarmerInArctic), Ending(WarmerInAntarctica))
    ensures !EndsWith(Ending(SameTemperature), Ending(WarmerInArctic))
    ensures !EndsWith(Ending(SameTemperature), Ending(WarmerInAntarctica))
  {
    NotSuffix(Ending(WarmerInArctic), Ending(WarmerInAntarctica), 1);
    NotSuffix(Ending(WarmerInAntarctica), Ending(WarmerInArctic), 1);
    NotSuffix(Ending(WarmerInArctic), Ending(SameTemperature), 1);
    NotSuffix(Ending(WarmerInAntarctica), Ending(SameTemperature), 12);
  }

  /** No outcome's ending is a suffix of another outcome's ending. */
  lemma EndingsDistinct(c: Comparison, d: Comparison, s: string)
    requires EndsWith(s, Ending(c)) && EndsWith(s, Ending(d))
    ensures c == d
  {
    EndingPairs();
    var a, b := Ending(c), Ending(d);
    if |a| <= |b| {
      SuffixOfSuffix(s, a, b);
    } else {
      SuffixOfSuffix(s, b, a);
    }
  }

  /** The three parts of `p + t + e` can be cut apart again. */
  lemma ConcatParts(p: string, t: string, e: string)
    ensures (p + t + e)[..|p|] == p
    ensures EndsWith((p + t + e)[|p|..], e)
    ensures (p + t + e)[|p|..|p + t + e| - |e|] == t
  {
    var m := p + t + e;
    assert m[|p|..] == t + e;
    assert (t + e)[|t + e| - |e|..] == e;
  }

  lemma MessageParts(c: Comparison, timestamp: string)
    ensures |Message(c, timestamp)| >= 3 && Message(c, timestamp)[..3] == "At "
    ensures EndsWith(Message(c, timestamp)[3..], Ending(c))
    ensures Message(c, timestamp)[3..|Message(c, timestamp)| - |Ending(c)|] == timestamp
  {
    ConcatParts("At ", timestamp, Ending(c));
  }

  /** Each comparison text names its outcome and the timestamp, and both can be read back. */
  lemma ParseMessageRoundTrip(c: Comparison, timestamp: string)
    ensures ParseMessage(Message(c, timestamp)) == Some((c, timestamp))
  {
    var m := Message(c, timestamp);
    MessageParts(c, timestamp);
    match c
    case WarmerInArctic =>
    case WarmerInAntarctica =>
      if EndsWith(m[3..], Ending(WarmerInArctic)) {
        EndingsDistinct(c, WarmerInArctic, m[3..]);
      }
    case SameTemperature =>
      if EndsWith(m[3..], Ending(WarmerInArctic)) {
        EndingsDistinct(c, WarmerInArctic, m[3..]);
      }
      if EndsWith(m[3..], Ending(WarmerInAntarctica)) {
        EndingsDistinct(c, WarmerInAntarctica, m[3..]);
      }
  }

  /** Texts for different outcomes or different timestamps differ. */
  lemma MessageInjective(c: Comparison, t: string, d: Comparison, u: string)
    requires Message(c, t) == Message(d, u)
    ensures c == d && t == u
  {
    ParseMessageRoundTrip(c, t);
    ParseMessageRoundTrip(d, u);
  }

  /**
   * `warmer` picks exactly one of the three texts, by strict comparison of
   * the latest north and south temperatures; each text carries the
   * latest timestamp.
   */
  lemma WarmerCases(latest: Reading)
    ensures Warmer(latest) == Message(WarmerInArctic, latest.timestamp) <==> latest.northTemp > latest.southTemp
    ensures Warmer(latest) == Message(WarmerInAntarctica, latest.timestamp) <==> latest.northTemp < latest.southTemp
    ensures Warmer(latest) == Message(SameTemperature, latest.timestamp) <==> latest.northTemp == latest.southTemp
    ensures ParseMessage(Warmer(latest)) == Some((Compare(latest), latest.timestamp))
  {
    var ts := latest.timestamp;
    forall c | Warmer(latest) == Message(c, ts) ensures c == Compare(latest) {
      MessageInjective(c, ts, Compare(latest), ts);
    }
    ParseMessageRoundTrip(Compare(latest), ts);
  }

  /** `list(range(n))`: the chart's x positions 0, 1, ..., n - 1. */
  function IndexList(n: nat): (r: seq<int>)
    ensures |r| == n
    ensures forall i :: 0 <= i < n ==> r[i] == i
  {
    if n == 0 then [] else IndexList(n - 1) + [n - 1]
  }

  /** `display_plot`: nothing is computed on an empty snapshot; otherwise one x position per reading. */
  function PlotIndices(snapshot: seq<Reading>): (r: Option<seq<int>>)
    ensures r.None? <==> snapshot == []
    ensures r.Some? ==> |r.value| == |snapshot| && forall i :: 0 <= i < |snapshot| ==> r.value[i] == i
  {
    if snapshot == [] then None else Some(IndexList(|snapshot|))
  }
}
