# Geotrek core helpers in Dafny

This project models the small pieces of logic at the centre of Geotrek, a
Django application that manages trails and paths, and of Caminae, its
predecessor. These are the pieces that do not depend on the database, on
geometry libraries or on HTTP:

- **`geotrek/common/utils`**:
  - the `LTE` comparator;
  - `sampling`, which thins a sequence to about `total` evenly spaced items;
  - `uniquify`, which drops repeated values and keeps the order of first occurrence;
  - the text half of `sql_extent`, which turns a PostGIS `BOX(xmin ymin,xmax ymax)` into its four coordinate tokens.
- **`caminae/common/utils`**:
  - `distance3D`;
  - `elevation_profile`, which gives the cumulative distance and the elevation at each vertex of a 3D line;
  - `almostequal`.
- **`geotrek/core/views`**:
  - the `last_list` redirect;
  - the topology-based initial data of creation forms (`CreateFromTopologyMixin`);
  - the columns of the path list;
  - the trail denormalisation of the path list (`PathList.get_queryset`);
  - the single-key read-through cache behind `get_graph_json`.

Files:

- `wrappers.dfy`: `Option` and a `dict.get`-style lookup.
- `geotrek_common_utils.dfy`: module `GeotrekCommonUtils`.
- `caminae_common_utils.dfy`: module `CaminaeCommonUtils`.
- `geotrek_core_views.dfy`: module `GeotrekCoreViews`.

How the source's forms carry over:

- **Loops become loop methods.** `uniquify`'s appending loop, `elevation_profile`'s accumulating loop and the two loops of `get_queryset` are methods with loops.
- **Methods are proved against functions.** Each loop method is proved equal to a specification function, and the source's promises are lemmas about that function.
- **Path instances.** The instances `get_queryset` annotates are objects of the class `PathObject`, whose `trails` field the method sets.
- **The cache.** It is a class `GraphCache` whose `store` map `GetGraphJson` overwrites. Its behaviour is specified by the pure transition `Serve`.
- **Outside inputs.** Querysets, the session, the request parameters, the existing topologies and the trails `by_id` table are inputs, as are the graph builder and `distance3D`. The last two are passed as functions.

`almostequal` occurs twice, at `caminae/common/utils/__init__.py:55-56` and `geotrek/common/utils/__init__.py:93-94`. The two copies are identical, so it is modelled once, in `CaminaeCommonUtils`.

`sampling`'s docstring promises "N items". The code returns `ceil(len/step)` items, which can be more: ten values sampled for four give five (`SamplingMayReturnMoreThanTotal`). The model follows the code.

Every `.dfy` file is verified together: `dafny verify *.dfy`.

## Model

| member | source | states |
|---|---|---|
| GeotrekCommonUtils.Lte.Equals | geotrek/common/utils/__init__.py:52-53 | `other == LTE(n)` holds exactly when `other <= n` |
| GeotrekCommonUtils.LteAcceptsBound | geotrek/common/utils/__init__.py:52-53 | `LTE(n)` accepts `n`, rejects `n + 1`, and what it accepts is closed downwards |
| GeotrekCommonUtils.SamplingStep | geotrek/common/utils/__init__.py:105 | the stride is at least 1; it is `len / total` when `total` is positive and at most the length, and 1 when `total` is negative or more than half the length |
| GeotrekCommonUtils.Strided | geotrek/common/utils/__init__.py:106 | item `k` of the slice is `values[k * step]`, that index is in range, and no further multiple of `step` is below the length |
| GeotrekCommonUtils.Sampling | geotrek/common/utils/__init__.py:97-106 | the sample is `values[0], values[step], values[2*step], ...` for every such index below `len(values)` |
| GeotrekCommonUtils.SamplingLength | geotrek/common/utils/__init__.py:106 | the sample has `ceil(len(values) / step)` items |
| GeotrekCommonUtils.SamplingIsOrderedSubsequence | geotrek/common/utils/__init__.py:106 | any two sampled items, taken in order, come from strictly increasing positions of `values` |
| GeotrekCommonUtils.SamplingFromValues | geotrek/common/utils/__init__.py:106 | every sampled item, the last one included, is an element of `values` |
| GeotrekCommonUtils.SamplingStartsWithFirst | geotrek/common/utils/__init__.py:106 | a non-empty input's sample starts with `values[0]` |
| GeotrekCommonUtils.SamplingWhole | geotrek/common/utils/__init__.py:105-106 | when `total >= len(values)`, or `total` is negative, the sample is the whole input |
| GeotrekCommonUtils.SamplingAtLeastTotal | geotrek/common/utils/__init__.py:97-106 | with `0 < total <= len(values)`, at least `total` items come back |
| GeotrekCommonUtils.SamplingRangeLength | geotrek/common/utils/__init__.py:100-101 | `sampling(range(10), 5)` has five items |
| GeotrekCommonUtils.SamplingRangeExample | geotrek/common/utils/__init__.py:100-101 | `sampling(range(10), 5) == [0, 2, 4, 6, 8]` |
| GeotrekCommonUtils.SamplingLettersLength | geotrek/common/utils/__init__.py:102-103 | `sampling('abcdefghijkl', 4)` has four items |
| GeotrekCommonUtils.SamplingLettersExample | geotrek/common/utils/__init__.py:102-103 | `sampling('abcdefghijkl', 4) == ['a', 'd', 'g', 'j']` |
| GeotrekCommonUtils.SamplingMayReturnMoreThanTotal | geotrek/common/utils/__init__.py:99-106 | "N items" is approximate: ten values sampled for four give five items |
| GeotrekCommonUtils.Unique | geotrek/common/utils/__init__.py:113-114 | the list after reading the input has no duplicates, contains every input value and nothing else |
| GeotrekCommonUtils.Uniquify | geotrek/common/utils/__init__.py:109-115 | the loop's result is `Unique(values)`: no duplicates, exactly the input's values |
| GeotrekCommonUtils.UniqueOrderedByFirstOccurrence | geotrek/common/utils/__init__.py:111-114 | "order preserved": the unique values are ordered by their first occurrence in the input |
| GeotrekCommonUtils.UniqueExample | geotrek/common/utils/__init__.py:113-114 | `uniquify([1, 2, 1, 3, 2]) == [1, 2, 3]` |
| GeotrekCommonUtils.Replace | geotrek/common/utils/__init__.py:75 | `str.replace` scanning left to right: replacing a pattern by itself changes nothing, a replacement no longer than the pattern never lengthens the text, and text shorter than the pattern is unchanged |
| GeotrekCommonUtils.ReplaceAbsent | geotrek/common/utils/__init__.py:75 | `replace` leaves text unchanged when a character of the pattern never occurs in it |
| GeotrekCommonUtils.Split | geotrek/common/utils/__init__.py:76 | every piece `split()` returns is non-empty and free of whitespace |
| GeotrekCommonUtils.SplitKeepsAllText | geotrek/common/utils/__init__.py:76 | the pieces of `split()`, joined, are the input with its whitespace removed |
| GeotrekCommonUtils.SplitFourTokens | geotrek/common/utils/__init__.py:76 | four whitespace-free words separated by single spaces split into exactly those words |
| GeotrekCommonUtils.SplitJoinSpaced | geotrek/common/utils/__init__.py:76 | `split()` returns maximal runs: any tokens joined by single spaces split back into exactly those tokens |
| GeotrekCommonUtils.SplitSkipsSeparators | geotrek/common/utils/__init__.py:76 | separators before the text do not change its split |
| GeotrekCommonUtils.ExtentTokens | geotrek/common/utils/__init__.py:74-76 | the extent's tokens are all non-empty and free of whitespace |
| GeotrekCommonUtils.NullExtentIsZeros | geotrek/common/utils/__init__.py:74-76 | a null or empty extent gives the four tokens `0 0 0 0` |
| GeotrekCommonUtils.NullExtentUnchanged | geotrek/common/utils/__init__.py:74-75 | the three replaces leave the default `'0 0 0 0'` unchanged |
| GeotrekCommonUtils.SplitNullExtent | geotrek/common/utils/__init__.py:74-76 | `'0 0 0 0'.split()` is four zeros |
| GeotrekCommonUtils.StripBoxPrefix | geotrek/common/utils/__init__.py:75 | removing `BOX(` from `BOX(body)` leaves `body)` |
| GeotrekCommonUtils.StripClosingParenthesis | geotrek/common/utils/__init__.py:75 | removing `)` from the box body leaves `xmin ymin,xmax ymax` |
| GeotrekCommonUtils.CommaToSpace | geotrek/common/utils/__init__.py:75 | replacing the comma by a space gives `xmin ymin xmax ymax` |
| GeotrekCommonUtils.BoxExtentTokens | geotrek/common/utils/__init__.py:66-76 | `BOX(xmin ymin,xmax ymax)` gives exactly the tokens `xmin, ymin, xmax, ymax` |
| CaminaeCommonUtils.SquaredDistance3D | caminae/common/utils/__init__.py:22-24 | the sum of squared coordinate differences under the root is never negative |
| CaminaeCommonUtils.SquaredDistance3DSymmetric | caminae/common/utils/__init__.py:22-24 | the sum under the root does not depend on the order of the points |
| CaminaeCommonUtils.Distance3DNonNegative | caminae/common/utils/__init__.py:22-24 | `distance3D` is never negative |
| CaminaeCommonUtils.Distance3DSymmetric | caminae/common/utils/__init__.py:22-24 | `distance3D(a, b) == distance3D(b, a)` |
| CaminaeCommonUtils.Distance3DZero | caminae/common/utils/__init__.py:22-24 | `distance3D(a, a) == 0` |
| CaminaeCommonUtils.DistanceAt | caminae/common/utils/__init__.py:32-38 | the `distance` accumulator at vertex `i` starts at 0 and is never negative for a non-negative distance function |
| CaminaeCommonUtils.DistanceAtMonotone | caminae/common/utils/__init__.py:35-38 | cumulative distance never decreases along the line when segment distances are non-negative |
| CaminaeCommonUtils.DistanceAtPrefix | caminae/common/utils/__init__.py:35-38 | the cumulative distance at a vertex depends only on the vertices up to it |
| CaminaeCommonUtils.Profile | caminae/common/utils/__init__.py:32-39 | the profile of the first `n` vertices has `n` pairs, and pair `k` is the cumulative distance at vertex `k` with that vertex's elevation |
| CaminaeCommonUtils.ElevationProfile | caminae/common/utils/__init__.py:27-40 | the loop's result is the profile of all vertices of a non-empty geometry |
| CaminaeCommonUtils.ElevationProfileProperties | caminae/common/utils/__init__.py:32-39 | one pair per vertex; the first is `(0, z0)`; pair `i` has `coords[i].z`; each distance is the previous plus `distance3D` of the segment; distances never decrease |
| CaminaeCommonUtils.AlmostEqual | caminae/common/utils/__init__.py:55-56 | `almostequal(v1, v2, precision)` holds exactly when `v1 - v2` lies strictly between `-10 ** -precision` and `10 ** -precision` |
| CaminaeCommonUtils.AlmostEqualDefault | caminae/common/utils/__init__.py:55-56 | with the default `precision=2`, `almostequal` holds exactly when the values differ by less than 0.01 |
| CaminaeCommonUtils.AlmostEqualSymmetricReflexive | caminae/common/utils/__init__.py:55-56 | `almostequal` is symmetric in its two values and holds for a value against itself |
| CaminaeCommonUtils.AlmostEqualCoarser | caminae/common/utils/__init__.py:55-56 | values almost equal at some precision are almost equal at every coarser precision |
| CaminaeCommonUtils.AlmostEqualExamples | caminae/common/utils/__init__.py:55-56 | `almostequal(1.001, 1.002)` holds at precision 2 and fails at precision 4 |
| GeotrekCoreViews.LastList | geotrek/core/views.py:28-33 | the redirect goes to the session's `last_list` when it is set and non-empty, otherwise to `core:path_list`; it is never empty |
| GeotrekCoreViews.LastListAfterListView | geotrek/core/views.py:29-33 | after a list view stores a non-empty URL, `last_list` returns to it; an empty or missing entry falls back to the path list |
| GeotrekCoreViews.OnTopology | geotrek/core/views.py:39-46 | a topology is found exactly when the `topology` parameter is present, non-empty and the key of an existing topology, and it is that topology |
| GeotrekCoreViews.GetInitial | geotrek/core/views.py:48-54 | with no topology found the initial data is unchanged; with one, only `topology` is added or overwritten, holding its serialization |
| GeotrekCoreViews.GetInitialAddsTopologyExactly | geotrek/core/views.py:48-54 | the `topology` field appears exactly when a known, non-empty key is requested |
| GeotrekCoreViews.Columns | geotrek/core/views.py:66-71 | the columns are `id, name, networks, length`, then `trails` last exactly when the trail model is enabled, with no repeats |
| GeotrekCoreViews.TrailsOfUnnamed | geotrek/core/views.py:85-89 | a path named by no `(trail, path)` pair gets no trails |
| GeotrekCoreViews.TrailsOfMembership | geotrek/core/views.py:85-86 | a trail is listed for a path exactly when some pair links them |
| GeotrekCoreViews.GroupedAppend | geotrek/core/views.py:85-86 | processing one more pair appends its trail to its path's list and changes no other entry |
| GeotrekCoreViews.Grouped | geotrek/core/views.py:79-86 | the `denormalized` dictionary has a key exactly for each path some pair names, and no entry is empty |
| GeotrekCoreViews.Denormalize | geotrek/core/views.py:79-86 | the dictionary the loop builds has one entry per named path, holding the trails of that path's pairs in pair order |
| GeotrekCoreViews.ListedTrails | geotrek/core/views.py:80-89 | a path's trails are empty when the trail model is off or no pair names it, and otherwise are exactly the trails some pair links it to |
| GeotrekCoreViews.GetQueryset | geotrek/core/views.py:73-91 | every path is yielded once, in order, with `_trails` set to its denormalized trails |
| GeotrekCoreViews.Serve | geotrek/core/views.py:144-163 | a request only ever changes the graph key; the JSON served is what the cache holds afterwards; a rebuild serves the builder's JSON stamped with `latest`; a hit leaves the cache unchanged |
| GeotrekCoreViews.CacheValid | geotrek/core/views.py:151-154 | a null `latest` or a cached entry with a null stamp is never valid |
| GeotrekCoreViews.ServeHitExactly | geotrek/core/views.py:148-155 | the cached JSON is served without rebuilding exactly when an entry exists, `latest` is non-null, the entry's stamp is non-null and not older than `latest` |
| GeotrekCoreViews.NullLatestRebuilds | geotrek/core/views.py:149-163 | with a null `latest` the graph is always rebuilt |
| GeotrekCoreViews.RebuildThenHit | geotrek/core/views.py:151-162 | after a request with a non-null `latest`, the next request with the same `latest` is a hit serving the same JSON |
| GeotrekCoreViews.NullStampNeverHits | geotrek/core/views.py:151-162 | an entry cached under a null `latest` is never served |
| GeotrekCoreViews.HitForEarlierLatest | geotrek/core/views.py:154 | an entry valid for some time is valid for every earlier one |
| GeotrekCoreViews.GraphCache.GetGraphJson | geotrek/core/views.py:141-163 | the view's cache reads and writes perform exactly the `Serve` transition on the cache and serve its JSON |

## Left out

- Floating point: coordinates, distances and `almostequal`'s bound are real numbers, so IEEE rounding is not modelled.
- `distance3D` itself: Dafny has no square root. The distance is a function parameter characterised by `IsDistance3D` (non-negative, with a square equal to the sum of squared differences). Python's `**` on floats is likewise not modelled.
- CaminaeCommonUtils.ElevationProfile: requires a non-empty geometry. The source raises `IndexError` on `coords[0]` for an empty one, and that error path is not modelled.
- CaminaeCommonUtils.ElevationProfileProperties: requires only that the distance function is never negative, which is weaker than `IsDistance3D`. Every property of the profile holds for any such function.
- GeotrekCommonUtils.Sampling: requires `total != 0`, because the source raises `ZeroDivisionError` there. Python 2's floor division and Python 3's truncating `int(len / total)` agree for the positive case, and both give stride 1 for a negative `total`.
- GeotrekCommonUtils.ExtentTokens: returns the coordinate tokens, not the floats that `sql_extent` builds with `float()`.
- The database query that `sql_extent` runs, plus `dbnow`, `sqlfunction` and `intersecting`: these are cursor and spatial ORM calls.
- `wkt_to_geom`: GEOS parsing and reprojection, a foreign library.
- The `classproperty` and `reify` descriptors: these are attribute-lookup machinery. `PathList.columns` is modelled as a plain method of the trail-model setting.
- `str.split()` on any separator other than the six modelled (space, tab, newline, carriage return, vertical tab, form feed): `unicode.split()` also splits on `\x1c`–`\x1f` and on non-ASCII spaces, which the model treats as ordinary characters.
- GeotrekCoreViews.OnTopology: the existing topologies are keyed by the request's text. Django's conversion of the key to an integer, and the `ValueError` it raises on a non-numeric key, are not modelled. The warning logged for an unknown key is not modelled either.
- GeotrekCoreViews.GetQueryset: requires that every trail id of the pairs is in `by_id` (`TrailsKnown`). The source would raise `KeyError` otherwise, but both come from the same trail query. The generator's laziness is not modelled: all paths are annotated and returned together.
- The queries themselves (`Trail.objects.filter`, `values_list`, `Path.latest_updated()`, `Path.objects.all()`) are inputs. The graph construction `graph_edges_nodes_of_qs` and `json.dumps` form one builder function parameter.
- GeotrekCoreViews.GraphCache.GetGraphJson: requests are modelled one at a time, each as one atomic call. In the source, `cache.get` and `cache.set` are separate steps with no lock, so overlapping requests may each rebuild the graph, and the last `set` decides the stored entry. `RebuildThenHit` is about requests that run one after another.
- The cache backend (its other keys' contents, expiry and eviction), HTTP responses, the `last_modified` and `never_cache` decorators, `login_required`, `same_structure_required` and the MapEntity generic views.
- Timestamps are integers. Datetime comparison is their order.
