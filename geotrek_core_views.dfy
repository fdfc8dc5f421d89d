/**
  Decision logic of Geotrek's core views, separated from Django: the
  `last_list` redirect, the topology-based initial data of creation forms,
  the columns and trail denormalisation of the path list, and the
  read-through cache that serves the path graph as JSON.

  Queries become inputs: the session and the request parameters are maps,
  querysets are sequences, the table of existing topologies and the
  `by_id` dictionary of trails are maps, and the graph builder is a
  function from paths to JSON text.
 */
module GeotrekCoreViews {
  import opened Wrappers

  // ---------------------------------------------------------------------
  // last_list(request)
  // ---------------------------------------------------------------------

  /** The URL name of the path list, the default landing page. */
  const PathListName := "core:path_list"

  /** The session key under which list views remember the last list shown. */
  const LastListKey := "last_list"

  /**
    `last_list(request)`: the redirect target. `session.get('last_list')`
    is falsy when the key is missing or its value is the empty string.
   */
  function LastList(session: map<string, string>): (target: string)
    ensures target != ""
    ensures LastListKey in session && session[LastListKey] != "" ==> target == session[LastListKey]
    ensures LastListKey !in session || session[LastListKey] == "" ==> target == PathListName
  {
    var last := Get(session, LastListKey);
    if last.None? || last.value == "" then PathListName else last.value
  }

  /** Once a list view has stored a non-empty URL, `last_list` goes back there; clearing it falls back to the path list. */
  lemma LastListAfterListView(session: map<string, string>, url: string)
    ensures url != "" ==> LastList(session[LastListKey := url]) == url
    ensures LastList(session[LastListKey := ""]) == PathListName
    ensures LastList(map k | k in session && k != LastListKey :: session[k]) == PathListName
  {
  }

  // ---------------------------------------------------------------------
  // CreateFromTopologyMixin
  // ---------------------------------------------------------------------

  /** The request parameter naming the topology to start from. */
  const TopologyParameter := "topology"

  /** The key of the initial form data that receives the serialized topology. */
  const TopologyField := "topology"

  /**
    `on_topology()`: the existing topology whose primary key is the
    `topology` request parameter. An absent or empty parameter gives
    `None`, and so does an unknown key (the source logs a warning).
    `existing` holds the non-deleted topologies, keyed by primary key.
   */
  function OnTopology<T>(query: map<string, string>, existing: map<string, T>): (r: Option<T>)
    ensures r.Some? <==> TopologyParameter in query && query[TopologyParameter] != "" && query[TopologyParameter] in existing
    ensures r.Some? ==> r.value == existing[query[TopologyParameter]]
  {
    var pk := Get(query, TopologyParameter);
    if pk.Some? && pk.value != "" then Get(existing, pk.value) else None
  }

  /**
    `get_initial()`: the superclass's initial data, with the serialized
    topology under `topology` when one is found.
   */
  function GetInitial<T, V>(initial: map<string, V>, query: map<string, string>, existing: map<string, T>,
                            serialize: T -> V): (r: map<string, V>)
    ensures OnTopology(query, existing).None? ==> r == initial
    ensures OnTopology(query, existing).Some? ==> TopologyField in r && r[TopologyField] == serialize(OnTopology(query, existing).value)
    ensures r.Keys == if OnTopology(query, existing).Some? then initial.Keys + {TopologyField} else initial.Keys
    ensures forall k :: k in initial && k != TopologyField ==> r[k] == initial[k]
  {
    var topology := OnTopology(query, existing);
    if topology.Some? then initial[TopologyField := serialize(topology.value)] else initial
  }

  /** The initial data gains the `topology` field exactly when a known, non-empty key is requested. */
  lemma GetInitialAddsTopologyExactly<T, V>(initial: map<string, V>, query: map<string, string>,
                                             existing: map<string, T>, serialize: T -> V)
    requires TopologyField !in initial
    ensures TopologyField in GetInitial(initial, query, existing, serialize) <==>
      TopologyParameter in query && query[TopologyParameter] != "" && query[TopologyParameter] in existing
  {
  }

  // ---------------------------------------------------------------------
  // PathList.columns
  // ---------------------------------------------------------------------

  /** The columns every path list shows. */
  const BaseColumns: seq<string> := ["id", "name", "networks", "length"]

  /** `PathList.columns`: the base columns, then `trails` when the trail model is enabled. */
  method Columns(trailModelEnabled: bool) returns (columns: seq<string>)
    ensures |columns| == if trailModelEnabled then 5 else 4
    ensures columns[..4] == BaseColumns
    ensures "trails" in columns <==> trailModelEnabled
    ensures trailModelEnabled ==> columns[4] == "trails"
    ensures forall i, j :: 0 <= i < j < |columns| ==> columns[i] != columns[j]
  {
    columns := ["id", "name", "networks", "length"];
    if trailModelEnabled {
      columns := columns + ["trails"];
    }
  }

  // ---------------------------------------------------------------------
  // PathList.get_queryset
  // ---------------------------------------------------------------------

  /** A trail as the list needs it. */
  datatype Trail = Trail(id: int, name: string)

  /** A path instance of the list's queryset; `get_queryset` attaches its trails to it. */
  class PathObject {
    const id: int
    var trails: seq<Trail>

    constructor(id: int)
      ensures this.id == id && trails == []
    {
      this.id := id;
      trails := [];
    }
  }

  /** A `(trail_id, path_id)` pair of the trail aggregations. */
  type Pair = (int, int)

  /** Every trail id of `pairs` has its trail in `byId`. */
  predicate TrailsKnown(pairs: seq<Pair>, byId: map<int, Trail>) {
    forall k :: 0 <= k < |pairs| ==> pairs[k].0 in byId
  }

  /** The trails of the pairs naming path `pid`, in the order of the pairs. */
  function TrailsOf(pairs: seq<Pair>, byId: map<int, Trail>, pid: int): seq<Trail>
    requires TrailsKnown(pairs, byId)
  {
    if |pairs| == 0 then []
    else
      var rest := TrailsOf(pairs[..|pairs| - 1], byId, pid);
      var last := pairs[|pairs| - 1];
      if last.1 == pid then rest + [byId[last.0]] else rest
  }

  /** The path ids named by some pair. */
  function PathIds(pairs: seq<Pair>): set<int> {
    set k | 0 <= k < |pairs| :: pairs[k].1
  }

  /** The `denormalized` dictionary: for each named path, its trails. */
  function Grouped(pairs: seq<Pair>, byId: map<int, Trail>): (d: map<int, seq<Trail>>)
    requires TrailsKnown(pairs, byId)
    ensures d.Keys == PathIds(pairs)
    ensures forall pid :: pid in d ==> |d[pid]| > 0
  {
    var d := map pid | pid in PathIds(pairs) :: TrailsOf(pairs, byId, pid);
    forall pid | pid in d ensures |d[pid]| > 0 {
      var k :| 0 <= k < |pairs| && pairs[k].1 == pid;
      TrailsOfMembership(pairs, byId, pid, byId[pairs[k].0]);
    }
    d
  }

  /** A path named by no pair has no trails. */
  lemma {:induction false} TrailsOfUnnamed(pairs: seq<Pair>, byId: map<int, Trail>, pid: int)
    requires TrailsKnown(pairs, byId)
    requires pid !in PathIds(pairs)
    ensures TrailsOf(pairs, byId, pid) == []
  {
    if |pairs| > 0 {
      var init := pairs[..|pairs| - 1];
      assert PathIds(init) <= PathIds(pairs) by {
        forall k | 0 <= k < |init| ensures init[k].1 in PathIds(pairs) {
          assert init[k] == pairs[k];
        }
      }
      TrailsOfUnnamed(init, byId, pid);
      assert pairs[|pairs| - 1].1 in PathIds(pairs);
    }
  }

  /** A trail is attached to a path exactly when some pair links them. */
  lemma {:induction false} TrailsOfMembership(pairs: seq<Pair>, byId: map<int, Trail>, pid: int, t: Trail)
    requires TrailsKnown(pairs, byId)
    ensures t in TrailsOf(pairs, byId, pid) <==> exists k :: 0 <= k < |pairs| && pairs[k].1 == pid && byId[pairs[k].0] == t
  {
    if |pairs| > 0 {
      var n := |pairs| - 1;
      var init := pairs[..n];
      TrailsOfMembership(init, byId, pid, t);
      if t in TrailsOf(pairs, byId, pid) {
        if t !in TrailsOf(init, byId, pid) {
          assert pairs[n].1 == pid && byId[pairs[n].0] == t;
        } else {
          var k :| 0 <= k < |init| && init[k].1 == pid && byId[init[k].0] == t;
          assert pairs[k] == init[k];
        }
      }
      if exists k :: 0 <= k < |pairs| && pairs[k].1 == pid && byId[pairs[k].0] == t {
        var k :| 0 <= k < |pairs| && pairs[k].1 == pid && byId[pairs[k].0] == t;
        if k < n {
          assert init[k] == pairs[k];
        }
      }
    }
  }

  /** Appending a pair extends the list of the path it names and no other. */
  lemma GroupedAppend(pairs: seq<Pair>, byId: map<int, Trail>, p: Pair)
    requires TrailsKnown(pairs, byId) && p.0 in byId
    ensures TrailsKnown(pairs + [p], byId)
    ensures Grouped(pairs + [p], byId) ==
      Grouped(pairs, byId)[p.1 := (if p.1 in Grouped(pairs, byId) then Grouped(pairs, byId)[p.1] else []) + [byId[p.0]]]
  {
    var all := pairs + [p];
    assert all[..|all| - 1] == pairs;
    assert TrailsKnown(all, byId) by {
      forall k | 0 <= k < |all| ensures all[k].0 in byId {
        if k < |pairs| {
          assert all[k] == pairs[k];
        }
      }
    }
    assert PathIds(all) == PathIds(pairs) + {p.1} by {
      forall pid | pid in PathIds(all) ensures pid in PathIds(pairs) + {p.1} {
        var k :| 0 <= k < |all| && all[k].1 == pid;
        if k < |pairs| {
          assert all[k] == pairs[k];
        }
      }
      forall pid | pid in PathIds(pairs) ensures pid in PathIds(all) {
        var k :| 0 <= k < |pairs| && pairs[k].1 == pid;
        assert all[k] == pairs[k];
      }
      assert all[|pairs|].1 == p.1;
    }
    if p.1 !in PathIds(pairs) {
      TrailsOfUnnamed(pairs, byId, p.1);
    }
  }

  /**
    The first loop of `get_queryset`: `denormalized.setdefault(path_id, [])
    .append(by_id[trail_id])` for each pair in turn. A trail id missing
    from `by_id` would raise; the pairs and `by_id` come from the same
    trail query, so every trail id is known.
   */
  method Denormalize(pairs: seq<Pair>, byId: map<int, Trail>) returns (denormalized: map<int, seq<Trail>>)
    requires TrailsKnown(pairs, byId)
    ensures denormalized == Grouped(pairs, byId)
    ensures denormalized.Keys == PathIds(pairs)
    ensures forall pid :: pid in denormalized ==> denormalized[pid] == TrailsOf(pairs, byId, pid)
  {
    denormalized := map[];
    for i := 0 to |pairs|
      invariant TrailsKnown(pairs[..i], byId)
      invariant denormalized == Grouped(pairs[..i], byId)
    {
      var (trailId, pathId) := pairs[i];
      assert pairs[..i + 1] == pairs[..i] + [pairs[i]];
      GroupedAppend(pairs[..i], byId, pairs[i]);
      var current := if pathId in denormalized then denormalized[pathId] else [];
      denormalized := denormalized[pathId := current + [byId[trailId]]];
    }
    assert pairs[..|pairs|] == pairs;
  }

  /**
    The trails `get_queryset` attaches to path `pid`: those of the pairs
    naming it when the trail model is enabled, none otherwise.
   */
  function ListedTrails(enabled: bool, pairs: seq<Pair>, byId: map<int, Trail>, pid: int): (r: seq<Trail>)
    requires TrailsKnown(pairs, byId)
    ensures !enabled ==> r == []
    ensures pid !in PathIds(pairs) ==> r == []
    ensures forall t :: t in r <==> enabled && exists k :: 0 <= k < |pairs| && pairs[k].1 == pid && byId[pairs[k].0] == t
  {
    if enabled then
      if pid !in PathIds(pairs) then TrailsOfUnnamed(pairs, byId, pid); []
      else
        var r := TrailsOf(pairs, byId, pid);
        forall t ensures t in r <==> exists k :: 0 <= k < |pairs| && pairs[k].1 == pid && byId[pairs[k].0] == t {
          TrailsOfMembership(pairs, byId, pid, t);
        }
        r
    else []
  }

  /**
    `PathList.get_queryset()`: every path of the queryset, in order, each
    with `_trails` set to its trails (`denormalized.get(path.id, [])`).
    The same instance listed twice receives the same trails both times.
   */
  method GetQueryset(paths: seq<PathObject>, trailModelEnabled: bool, pairs: seq<Pair>, byId: map<int, Trail>)
    returns (listed: seq<PathObject>)
    requires TrailsKnown(pairs, byId)
    modifies set i | 0 <= i < |paths| :: paths[i]
    ensures listed == paths
    ensures forall i :: 0 <= i < |paths| ==> paths[i].trails == ListedTrails(trailModelEnabled, pairs, byId, paths[i].id)
  {
    var denormalized: map<int, seq<Trail>> := map[];
    if trailModelEnabled {
      denormalized := Denormalize(pairs, byId);
    }
    listed := [];
    for i := 0 to |paths|
      invariant listed == paths[..i]
      invariant forall j :: 0 <= j < i ==> paths[j].trails == ListedTrails(trailModelEnabled, pairs, byId, paths[j].id)
    {
      var path := paths[i];
      var pathTrails := if path.id in denormalized then denormalized[path.id] else [];
      path.trails := pathTrails;
      listed := listed + [path];
    }
  }

  // ---------------------------------------------------------------------
  // get_graph_json(request)
  // ---------------------------------------------------------------------

  /** The cache key of the serialized graph. */
  const GraphKey := "path_graph_json"

  /** A cached graph: the `latest_updated` stamp it was built at (possibly null) and its JSON. */
  datatype CacheEntry = CacheEntry(stamp: Option<int>, json: string)

  /**
    The cached graph may be served: it exists, the paths have a latest
    update time, the entry has a stamp, and the stamp is not older.
   */
  predicate CacheValid(cached: Option<CacheEntry>, latest: Option<int>)
    ensures latest.None? ==> !CacheValid(cached, latest)
    ensures cached.Some? && cached.value.stamp.None? ==> !CacheValid(cached, latest)
  {
    cached.Some? && latest.Some? && cached.value.stamp.Some? && cached.value.stamp.value >= latest.value
  }

  /** The outcome of one request: the JSON served, whether the graph was rebuilt, and the cache afterwards. */
  datatype Response = Response(json: string, rebuilt: bool, store: map<string, CacheEntry>)

  /**
    One request against cache contents `store`, the paths' latest update
    time `latest`, and `built`, the JSON the graph builder produces.
   */
  function Serve(store: map<string, CacheEntry>, latest: Option<int>, built: string): (r: Response)
    ensures r.store.Keys == store.Keys + {GraphKey}
    ensures forall k :: k in store && k != GraphKey ==> r.store[k] == store[k]
    ensures r.store[GraphKey].json == r.json
    ensures r.rebuilt ==> r.json == built && r.store[GraphKey].stamp == latest
    ensures !r.rebuilt ==> r.store == store
  {
    var cached := Get(store, GraphKey);
    if CacheValid(cached, latest) then Response(cached.value.json, false, store)
    else Response(built, true, store[GraphKey := CacheEntry(latest, built)])
  }

  /** The cached JSON is served without rebuilding exactly when the entry is valid for `latest`. */
  lemma ServeHitExactly(store: map<string, CacheEntry>, latest: Option<int>, built: string)
    ensures !Serve(store, latest, built).rebuilt <==>
      GraphKey in store && latest.Some? && store[GraphKey].stamp.Some? && store[GraphKey].stamp.value >= latest.value
    ensures !Serve(store, latest, built).rebuilt ==> Serve(store, latest, built).json == store[GraphKey].json
  {
  }

  /** Without a latest update time the graph is always rebuilt. */
  lemma NullLatestRebuilds(store: map<string, CacheEntry>, built: string)
    ensures Serve(store, None, built).rebuilt
    ensures Serve(store, None, built).json == built
  {
  }

  /** After a request with a known `latest`, the next request with the same `latest` is a hit serving the same JSON. */
  lemma RebuildThenHit(store: map<string, CacheEntry>, latest: Option<int>, built: string, built2: string)
    requires latest.Some?
    ensures !Serve(Serve(store, latest, built).store, latest, built2).rebuilt
    ensures Serve(Serve(store, latest, built).store, latest, built2).json == Serve(store, latest, built).json
  {
  }

  /** An entry stored under a null `latest` is never served again. */
  lemma NullStampNeverHits(store: map<string, CacheEntry>, built: string, latest: Option<int>, built2: string)
    ensures Serve(Serve(store, None, built).store, latest, built2).rebuilt
  {
  }

  /** An entry valid for some time is valid for every earlier one. */
  lemma HitForEarlierLatest(store: map<string, CacheEntry>, t: int, u: int, built: string)
    requires u <= t
    requires !Serve(store, Some(t), built).rebuilt
    ensures !Serve(store, Some(u), built).rebuilt
  {
  }

  /** The cache shared by the requests; only the graph key is used here. */
  class GraphCache {
    var store: map<string, CacheEntry>

    constructor()
      ensures store == map[]
    {
      store := map[];
    }

    /**
      `get_graph_json(request)`: serves the cached graph when still valid,
      otherwise builds it from `paths`, caches `(latest, json)` and serves it.
     */
    method GetGraphJson<P>(latest: Option<int>, paths: seq<P>, build: seq<P> -> string) returns (json: string)
      modifies this
      ensures json == Serve(old(store), latest, build(paths)).json
      ensures store == Serve(old(store), latest, build(paths)).store
    {
      var result := Get(store, GraphKey);
      if result.Some? && latest.Some? {
        var CacheEntry(cacheLatest, jsonGraph) := result.value;
        if cacheLatest.Some? && cacheLatest.value >= latest.value {
          return jsonGraph;
        }
      }
      json := build(paths);
      store := store[GraphKey := CacheEntry(latest, json)];
    }
  }
}
