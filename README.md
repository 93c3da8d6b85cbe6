# Antarctic Explorer live-data dashboard: a Dafny model

The dashboard (`app.py`, a Shiny Express page) simulates one reading every
few seconds: an Arctic ("north") and an Antarctic ("south") temperature,
each drawn from -18 to -16 degrees and rounded to one decimal, plus a
formatted timestamp. It appends the reading to a `deque(maxlen=20)`, the
reading history, and its views read the snapshot and the newest reading:
two temperature boxes, a text saying where it is warmer, a table and a
chart.

This project models:

- `Readings`: the reading record. Temperatures are integers in tenths of a
  degree (-17.3 is -173), so the generated range is -180..-160. The
  timestamp is an opaque string.
- `History`: the deque with a maximum length. `Append` says what one
  `append` does to the deque. `Window` is the newest `min(N, cap)` of N
  readings. `Run` folds `Append` over a sequence of readings, starting from
  the empty deque. The class `Sampler` is the single writer: its `history`
  field is the deque, and `Tick` does one evaluation of `reactive_calc_combined`.
  The sampled temperatures and the timestamp come in as parameters.
  `Tick` returns the snapshot and the new reading as the latest. A ghost
  field `produced` records every reading built so far, and `Valid()` ties
  the deque to `Run(produced)`, which `History.RunIsWindow` shows is the
  newest readings of `produced`.
- `Format`: how Python's f-string shows a float rounded to one decimal
  (`-17.0` shows as "-17.0"), together with a parser that reads the text
  back.
- `Views`: `display_temp` and `display_arctic_temp` (the latest south and
  north temperature followed by " C"), `warmer` (three texts, each starting
  with "At " and the timestamp), and the guard and the `x_vals` index list
  of `display_plot`.
- `Scenario`: worked runs with capacity 3 and four ticks.

Modelling decisions:

- The capacity is the constant `DEQUE_SIZE = 20`. The model makes it a
  constructor parameter, with `History.DequeSize = 20`; `History.DashboardEvictsFirst`
  instantiates the eviction property at that capacity. A capacity of 0
  behaves like Python's `deque(maxlen=0)`, which stays empty.
- Timestamps come from the wall clock, so the history is in timestamp
  order only if the clock never goes back. `History.AppendChronological`
  states this as a conditional property.
- The code's last `return` in `warmer` (app.py:101) can never be reached.
  `Views.Compare` has only the three reachable branches. `Views.WarmerCases`
  shows that the three cover every ordering of the two temperatures.
- `display_plot` (app.py:132-156) builds a figure and `x_vals` but never
  returns them, so it renders nothing in either branch. `Views.PlotIndices`
  models the values it computes, not a returned chart.

## Model

| member | source | states |
|---|---|---|
| `History.Append` | app.py:28 | no contract of its own: one `append` on `deque(maxlen=cap)`; `History.AppendLength`, `History.AppendNotFull`, `History.AppendFull` and `History.AppendLatest` state its meaning |
| `History.Run` | app.py:17-28 | no contract of its own: the deque after a series of ticks from empty; `History.RunIsWindow` states its meaning |
| `History.AppendLength` | app.py:15-17 | one append leaves `min(old length + 1, capacity)` entries |
| `History.AppendNotFull` | app.py:28 | while the deque has room, an append adds the new reading at the end and changes nothing else |
| `History.AppendFull` | app.py:17 | on a full deque an append drops the oldest reading, keeps the rest in order, and adds the new one last |
| `History.AppendLatest` | app.py:28-37 | with a positive capacity, the new reading is the last entry of the deque |
| `History.WindowStep` | app.py:28 | appending to the newest readings of a sequence gives the newest readings of the extended sequence |
| `History.RunIsWindow` | app.py:15-28 | from the empty deque, after any N ticks the history is exactly the newest `min(N, capacity)` readings, oldest first |
| `History.RunLength` | app.py:15-17 | after N ticks from empty the length is `min(N, capacity)`, so it never exceeds the capacity |
| `History.RunEvictsFirst` | app.py:17-28 | after capacity + 1 ticks the history is every reading but the first; a first reading that differs from the later ones is gone |
| `History.RunWellFormed` | app.py:22-28 | if every generated reading lies in -18.0..-16.0, every reading in the history does too |
| `History.AppendChronological` | app.py:24-28 | if the new timestamp is not before the newest stored one, an append keeps the history in timestamp order |
| `History.DashboardEvictsFirst` | app.py:15-17 | with the dashboard's capacity of 20, the 21st tick evicts the first reading and keeps the other twenty in order |
| `History.Sampler.constructor` | app.py:17 | the history starts empty, with the given maximum length |
| `History.Sampler.Tick` | app.py:19-41 | one tick builds the reading from its inputs, appends it with eviction, keeps the capacity bound and the range of every stored reading, returns the whole deque as the snapshot and the new reading as the latest, which is the snapshot's last entry |
| `Format.NatToDecimal` | app.py:81 | the decimal text of a whole number is a non-empty string of digits, one digit long exactly below 10, with no leading zero |
| `Format.DecimalRoundTrip` | app.py:81 | reading the decimal text of a number gives the number back |
| `Format.FormatTenths` | app.py:81 | no contract of its own: the f-string text of a one-decimal temperature (also app.py:113); `Format.FormatTenthsRoundTrip` and `Format.FormatInRange` state its meaning |
| `Format.FormatTenthsRoundTrip` | app.py:81 | the one-decimal text of any temperature reads back to that exact temperature, negative values included |
| `Format.FormatInRange` | app.py:22-23 | a temperature from -19.9 to -10.0 is shown with five characters "-1d.d" |
| `Views.DisplayTemp` | app.py:78-81 | no contract of its own: `display_temp`; `Views.DisplayTempShowsSouth` and `Views.DisplayTempShape` state its meaning |
| `Views.DisplayArcticTemp` | app.py:111-113 | no contract of its own: `display_arctic_temp`; `Views.DisplayArcticTempShowsNorth` and `Views.DisplayTempShape` state its meaning |
| `Views.DisplayedRoundTrip` | app.py:81 | a temperature text with its " C" unit reads back to the temperature |
| `Views.DisplayTempShowsSouth` | app.py:77-81 | the Antarctic box shows exactly the latest south temperature, in degrees C |
| `Views.DisplayArcticTempShowsNorth` | app.py:110-113 | the Arctic box shows exactly the latest north temperature, in degrees C |
| `Views.DisplayTempShape` | app.py:22-23 | for a generated reading both boxes show a seven-character text starting "-1" |
| `Views.Compare` | app.py:92-99 | no contract of its own: the three-way comparison of the latest north and south temperatures; `Views.WarmerCases` states its meaning |
| `Views.Warmer` | app.py:89-101 | no contract of its own: `warmer`; `Views.WarmerCases` states its meaning |
| `Views.EndingsDistinct` | app.py:95-100 | no ending of one comparison text is a suffix of another, so the ending decides the outcome |
| `Views.ParseMessageRoundTrip` | app.py:95-100 | each comparison text can be read back to its outcome and its timestamp |
| `Views.MessageInjective` | app.py:95-100 | two comparison texts are equal only for the same outcome and the same timestamp |
| `Views.WarmerCases` | app.py:88-101 | `warmer` gives the Arctic text iff north > south, the Antarctica text iff north < south, the same-temperature text iff they are equal, and its text carries the latest timestamp |
| `Views.IndexList` | app.py:154-155 | `list(range(n))` has length n and holds i at position i |
| `Views.PlotIndices` | app.py:132-155 | no chart data is computed for an empty history; otherwise the x positions are 0..n-1, one per reading |
| `Scenario.FourTicksOnThreeSlots` | app.py:19-41 | with capacity 3, four readings leave readings 2, 3 and 4, and the last one reports Antarctica as warmer |
| `Scenario.FourTicks` | app.py:19-41 | on a live sampler of capacity 3, four ticks with any in-range readings leave the last three, and `warmer` then judges the fourth; proved from the contracts of the constructor and `Tick` alone |

## Left out

- The reactive machinery (`reactive.value`, `@reactive.calc`, `invalidate_later`, the 5-second timer): framework scheduling. `@reactive.calc` caches its result, so each evaluation of `reactive_calc_combined` (once per timer firing, shared by every view) is one explicit `Sampler.Tick`, and the views all take that tick's latest reading.
- `random.uniform` and `datetime.now().strftime`: nondeterministic outside calls. Their results are `Tick`'s parameters, and the range of the temperatures is a precondition.
- Floating point, `round(..., 1)` and the distribution of `random.uniform`: temperatures are exact integer tenths. Python prints a float rounded to one decimal as its shortest round-trip text, which is the one-decimal text `Format.FormatTenths` builds for |t| < 10^15 tenths, that is, at most fifteen significant digits; this covers the generated range -18.0..-16.0. Beyond that a double cannot hold every tenth and Python may print a neighbouring value. Negative zero (`round(-0.04, 1)` prints "-0.0") is not represented: integer tenths have a single zero. The float computation itself is not modelled.
- `History.Sampler.Tick`: returns the snapshot as a value. The code returns the deque object itself, so the model does not capture aliasing between the snapshot the views hold and later ticks.
- The pandas DataFrame (`pd.DataFrame`, `pd.set_option`, `render.DataGrid`, `pd.to_datetime`): library wrappers with no logic of their own. The table view is therefore not modelled.
- The plotly figure (scatter and line traces) and the unused `scipy` import: rendering only. Of `display_plot`, only the empty guard and `x_vals` are modelled.
- Page chrome: sidebar text, links, icons, value boxes and cards. This is presentation only.
