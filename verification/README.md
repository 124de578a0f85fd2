# Earthquake dashboard: verified model of its geometric core

The earthquake dashboard draws seismic events on a 2D map and a 3D globe. Around it sits
Dash layout and Plotly figure code. Four small, pure routines inside that code are modelled
here in Dafny, with proofs about them:

- **Dateline splitting** (`split_polygon_at_dateline`): one pass over `(lat, lon)` points.
  A new polygon starts whenever two consecutive points differ in longitude by more than
  180 degrees. Module `Dateline` (file `dateline.dfy`), using `GeoPoint` and the seam test
  `Crosses` from module `Geo` (`geo.dfy`).
- **Geodesic ring** (`create_geodesic_circle`): `n_points` destinations at evenly spaced
  bearings, followed by the first one again. The geodesic destination is computed by the
  geopy library. Here it is the function-typed parameter `dest`, so the model proves the
  ring structure and nothing about geodesy. Module `Geodesic` (`geodesic.dfy`).
- **Fault-line flattening** (the list-building part of `add_fault_lines_mapbox`):
  LineString and MultiLineString features become two parallel lists of longitudes and
  latitudes. A `None` follows every line, and the last `None` is then dropped. Module
  `FaultLines` (`fault_lines.dfy`).
- **Sidebar toggle** (`toggle_sidebar`): the menu button switches the sidebar and content
  style dictionaries between an open and a closed pair. Module `Sidebar` (`sidebar.dfy`).

`wrappers.dfy` holds `Option` (which also stands for Python's `None`) and `Result` (an
operation that raises is a `Failure`).

Each operation is specified independently of how it is computed, and a lemma ties the two together:

- The splitter is specified by `IsDatelineSplit`, which says what a split is: non-empty
  pieces that concatenate to the input, no seam jump inside a piece, and a seam jump at
  every boundary. `Split` meets it, and any partition that meets it equals `Split`.
- The flattening is specified by `Joined`: the lines' coordinates with exactly one
  break between consecutive lines.
- The ring is specified by `IsClosedRing`: one destination per bearing `i * (360 / n_points)`,
  in order, then the first point again.
- The toggle is specified by the two-state machine `Panel` / `Flip`.

Behaviour of the code that the model keeps as it is:

- `create_geodesic_circle` checks neither `n_points >= 3` nor `radius_km > 0`.
  `n_points = 0` raises `ZeroDivisionError` at `src/utils/common_functions.py:165`.
  A negative `n_points` gives an empty range, so the result is `[]`, not an error. Any
  positive count builds a ring. The radius is passed to the destination computation
  unchanged. Without an explicit count, `n_points` is 72, which is the only count the
  globe uses (`src/components/earthquake_visual_component.py:277`).
- `update_visuals` (`src/components/earthquake_visual_component.py:280-293`) draws every
  piece the splitter returns, one-point pieces included. The splitter returns them as
  they are.
- The single pop at `src/utils/common_functions.py:233-235` removes one `None`. When the
  last of two or more lines is empty, the `None` that follows the line before it stays
  behind, so `all_lons` ends in `None`. `FaultLines.FlattenTrailingBreak` states the
  exact condition. GeoJSON requires at least two positions per line, so on valid input
  `all_lons` never ends in `None`.

## Model

| member | source | states |
|---|---|---|
| Dateline.Split | src/utils/common_functions.py:183-200 | No polygons exactly when there are no points. On non-empty input the current (last) polygon is non-empty and ends on the last input point, so `current_poly[-1]` is always the previous input point `coords[i-1]`. |
| Dateline.SplitPolygonAtDateline | src/utils/common_functions.py:175-201 | The single pass with its running `current` polygon computes `Split`, and its result is a dateline split of the input. |
| Dateline.SplitIsDatelineSplit | src/utils/common_functions.py:187-200 | The result has non-empty pieces and concatenates to the input. No piece has adjacent points more than 180 degrees apart in longitude. Every two consecutive pieces meet at such a jump. |
| Dateline.DatelineSplitUnique | src/utils/common_functions.py:187-200 | Any partition of the input with those four properties is exactly the splitter's result: pieces start exactly at the seam jumps and nowhere else. |
| Dateline.SplitCount | src/utils/common_functions.py:188-197 | On non-empty input, the number of polygons is one plus the number of adjacent input pairs more than 180 degrees apart in longitude. |
| Dateline.SplitWithoutJumps | src/utils/common_functions.py:193-197 | The result is the single polygon `[coords]` if and only if the input is non-empty and has no seam jump. |
| Dateline.SplitAtSeamExample | src/utils/common_functions.py:193-195 | The points (10, 179) and then (10, -179), 358 degrees apart, end up in two separate polygons. |
| Geodesic.CreateGeodesicCircle | src/utils/common_functions.py:159-173 | Fails (division by zero) exactly when `n_points` is 0. A negative count gives the empty list. A positive count gives `n_points + 1` points. Point `i < n_points` is the destination at bearing `i * (360 / n_points)`, and the last point repeats the first. The count defaults to 72. |
| Geodesic.FeltRing | src/components/earthquake_visual_component.py:277 | Called without a count, as the globe calls it, the ring has 73 points: the 72 destinations 5 degrees apart and the first one again. |
| Geodesic.BearingsAscend | src/utils/common_functions.py:165-167 | For a positive count the bearings start at 0, increase strictly, and stay in [0, 360). |
| FaultLines.FlattenFaultLines | src/utils/common_functions.py:209-235 | The flattening fails exactly when some feature has a `null` geometry (`TypeError` on `geometry["type"]`) or some position of some line lacks a latitude (`IndexError` on `c[0]` or `c[1]`). Otherwise, after one trailing `None` is dropped, the longitude list is the reference layout `Joined` of all lines' `c[0]`, and the latitude list is the same for `c[1]`. |
| FaultLines.NoErrorIffWellFormed | src/utils/common_functions.py:212-230 | No feature raises if and only if every feature has a geometry and every position of every line has two coordinates. |
| FaultLines.FlattenFailsAtFirstBadFeature | src/utils/common_functions.py:212-230 | The flattening fails if and only if some feature raises, and the error is the one of the first such feature: every feature before it is handled without error. |
| FaultLines.FeaturesTraceIsLinesTrace | src/utils/common_functions.py:212-230 | Walking features (a LineString gives one line, a MultiLineString each of its lines, other types and a `null` geometry none) emits the same list as walking all lines in feature order. |
| FaultLines.LinesTraceIsJoined | src/utils/common_functions.py:216-230 | Emitting each line followed by `None` gives the reference layout plus one trailing `None`. |
| FaultLines.JoinedAligned | src/utils/common_functions.py:216-230 | In the reference layout, the longitude and latitude lists have the same length and `None` at the same indices. |
| FaultLines.FlattenAligned | src/utils/common_functions.py:209-235 | `all_lons` and `all_lats` always have equal length, with breaks at the same indices. |
| FaultLines.FlattenKeepsCoordinates | src/utils/common_functions.py:212-230 | The non-`None` entries of `all_lons` (`all_lats`) are exactly `c[0]` (`c[1]`) of every position of every line, in feature order. |
| FaultLines.FlattenTrailingBreak | src/utils/common_functions.py:232-235 | `all_lons` ends in `None` if and only if there are at least two lines and the last has no position. When every line has a position it never ends in `None`. |
| FaultLines.OtherGeometryIgnored | src/utils/common_functions.py:212-230 | A feature of any geometry type other than "LineString" and "MultiLineString", wherever it stands among the features, leaves the result unchanged. |
| Sidebar.ToggleSidebar | src/components/earthquake_visual_component.py:181-188 | The result is always one of the two constant pairs. The sidebar is the open (300px) one if and only if the content margin is the open one ("320px"). |
| Sidebar.StylesDistinguishPanels | src/components/earthquake_visual_component.py:59-91 | The open sidebar style is the only one of the two whose width is "300px". The content margins are "320px" (open) and "20px" (closed). Both sidebar styles are non-empty. |
| Sidebar.ToggleWithoutStyle | src/components/earthquake_visual_component.py:182-183 | A missing or empty sidebar style yields `(SIDEBAR_OPEN, CONTENT_STYLE_OPEN)`. |
| Sidebar.ToggleClosesOpenSidebar | src/components/earthquake_visual_component.py:185-186 | A sidebar style with width "300px" yields `(SIDEBAR_CLOSED, CONTENT_STYLE_CLOSED)`. |
| Sidebar.ToggleOpensOtherSidebar | src/components/earthquake_visual_component.py:187-188 | Any other non-empty sidebar style, including one without a width, yields `(SIDEBAR_OPEN, CONTENT_STYLE_OPEN)`. |
| Sidebar.ToggleFlipsPanel | src/components/earthquake_visual_component.py:181-188 | Toggling the sidebar style of either state gives the style pair of the other state. |
| Sidebar.ToggleAlternates | src/components/earthquake_visual_component.py:185-188 | Starting from `SIDEBAR_OPEN`, one toggle gives the closed pair and a second returns `SIDEBAR_OPEN`. This relies on the widths "300px" and "0px". |

## Left out

- The geodesic destination formula (geopy's `distance(...).destination`): it is floating-point trigonometry in a foreign library. It is the parameter `dest`, and any exception it raises (for an odd radius, say) is not modelled.
- Geodesic.BearingsAscend: proved over exact reals. `create_geodesic_circle` computes `360 / n_points` and `i * step` in binary floating point, and that rounding is not modelled.
- Dateline.Split: the seam test `abs(lon_curr - lon_prev) > 180` is computed over exact reals. In doubles a difference just above 180 can round to 180.0 (longitude 170.0 then -10.000000000000002), and then `split_polygon_at_dateline` keeps one polygon where `Split` starts a new one. Latitudes and longitudes are `real` throughout.
- The felt-radius formula `10 ** (0.5 * mag + 1)`: floating-point exponentiation in `update_visuals`.
- `update_visuals`: dataframe filtering, hover lookup and trace wiring, plus its commented-out 2D overlay, which is dead code.
- All Plotly figure construction: `create_magnitude_histogram`, `create_earthquake_map`, `create_globe_figure`, `create_hover_circle`, and the `fig.add_trace` call that ends `add_fault_lines_mapbox`. These are rendering wrappers.
- Data I/O: `load_clean_data` and the CSV cleaning script read and write files, and the USGS download is an HTTP request.
- Page layouts, sliders, dropdowns and the Dash callback registration. The toggle's `n_clicks` and `content_style` arguments are kept as parameters, since the function does not read them.
- Errors from malformed GeoJSON dictionaries are ruled out by the types, not modelled: a missing `features`, `geometry`, `type` or `coordinates` key would raise `KeyError`. Malformed point tuples in the splitter are ruled out the same way. A `null` geometry, which section 3.2 of RFC 7946 allows, is modelled: it raises `TypeError` (`FlattenError.TypeError`). Style dictionaries are modelled as string-to-string maps.
