/** The reference reader `_extract_refs` (gps_xyt.py:67-102): from the features
    of a GeoJSON document, every `LineString` feature with properties yields one
    reference per property whose value parses as a time interval. Reading the
    JSON file is not modelled, and the ISO 8601 interval parser is a function
    parameter (`None` where the parser raises `ValueError`). */
module ReferenceCatalog {
  import opened Wrappers

  /** A GeoJSON geometry: its `type` member and its `coordinates`, a list of
      positions `[lng, lat, ...]`. */
  datatype Geometry = Geometry(kind: string, coordinates: seq<seq<real>>)

  /** The `properties` member of a feature: missing, JSON `null`, or an object
      whose entries (in document order) map a property name to a string value.
      As in the dictionary a parsed JSON object becomes, the names of an object's
      entries are distinct; the reader does not rely on it. */
  datatype Properties = Absent | Null | Object(entries: seq<(string, string)>)

  /** A GeoJSON feature; `geometry` is `None` when it is missing or `null`. */
  datatype Feature = Feature(kind: string, geometry: Option<Geometry>, properties: Properties)

  /** A time interval in epoch seconds, both ends inclusive. */
  datatype Interval = Interval(startT: int, endT: int)

  /** One yielded tuple `prop, aLat, aLng, bLat, bLng, start, end` (gps_xyt.py:102). */
  datatype Ref = Ref(prop: string, aLat: real, aLng: real, bLat: real, bLng: real, interval: Interval)

  /** The exceptions that escape the generator and abort the whole listing:
      a feature without a usable geometry (`KeyError`/`TypeError` at
      gps_xyt.py:78-79), a `LineString` with no positions or a position with
      fewer than two numbers (`IndexError` at gps_xyt.py:83-86), and a `null`
      properties member (`AttributeError` at gps_xyt.py:94). */
  datatype RefError = MissingGeometry | BadCoordinates | NullProperties

  /** A LineString whose first and last positions both hold a longitude and a latitude. */
  predicate HasEndpoints(g: Geometry) {
    |g.coordinates| > 0 && |g.coordinates[0]| >= 2 && |g.coordinates[|g.coordinates| - 1]| >= 2
  }

  /** The references of one property list of one feature (the loop of
      gps_xyt.py:94-102): entries whose value does not parse are skipped. */
  function PropRefs(entries: seq<(string, string)>, g: Geometry, parse: string -> Option<Interval>): (rs: seq<Ref>)
    requires HasEndpoints(g)
    ensures |rs| <= |entries|
    decreases |entries|
  {
    if entries == [] then []
    else
      var first, last := g.coordinates[0], g.coordinates[|g.coordinates| - 1];
      var head := match parse(entries[0].1)
        case None => []
        case Some(iv) => [Ref(entries[0].0, first[1], first[0], last[1], last[0], iv)];
      head + PropRefs(entries[1..], g, parse)
  }

  /** What one feature contributes, in the order the source examines it:
      feature type, geometry, geometry type, endpoints, then properties. */
  function FeatureRefs(f: Feature, parse: string -> Option<Interval>): (r: Result<seq<Ref>, RefError>)
    ensures r.Ok? && r.value != [] ==> f.properties.Object? && |r.value| <= |f.properties.entries|
  {
    if f.kind != "Feature" then Ok([])
    else match f.geometry
      case None => Err(MissingGeometry)
      case Some(g) =>
        if g.kind != "LineString" then Ok([])
        else if !HasEndpoints(g) then Err(BadCoordinates)
        else match f.properties
          case Absent => Ok([])
          case Null => Err(NullProperties)
          case Object(entries) => Ok(PropRefs(entries, g, parse))
  }

  /** `list(_extract_refs(...))`: the references of all features in order; the
      first exception aborts the listing. */
  function ExtractRefs(features: seq<Feature>, parse: string -> Option<Interval>): (r: Result<seq<Ref>, RefError>)
    ensures r.Err? ==> exists k :: 0 <= k < |features| && FeatureRefs(features[k], parse) == Err(r.error)
                                 && forall j :: 0 <= j < k ==> FeatureRefs(features[j], parse).Ok?
  {
    if features == [] then Ok([])
    else match FeatureRefs(features[0], parse)
      case Err(e) => Err(e)
      case Ok(head) =>
        match ExtractRefs(features[1..], parse)
        case Err(e) => Err(e)
        case Ok(tail) => Ok(head + tail)
  }

  /** `ref` is what the feature yields for one of its properties: a `Feature`
      with a `LineString` geometry and a properties object holding an entry
      `(ref.prop, v)` with `v` parsing to `ref.interval`; endpoint A is the first
      position and B the last, each read `[lng, lat]`. */
  ghost predicate Yields(f: Feature, parse: string -> Option<Interval>, ref: Ref) {
    && f.kind == "Feature"
    && f.geometry.Some? && f.geometry.value.kind == "LineString"
    && HasEndpoints(f.geometry.value)
    && f.properties.Object?
    && var cs := f.geometry.value.coordinates;
       && ref.aLng == cs[0][0] && ref.aLat == cs[0][1]
       && ref.bLng == cs[|cs| - 1][0] && ref.bLat == cs[|cs| - 1][1]
       && exists k :: 0 <= k < |f.properties.entries|
            && f.properties.entries[k].0 == ref.prop
            && parse(f.properties.entries[k].1) == Some(ref.interval)
  }

  /** A feature fails when the source raises while examining it. */
  predicate Fails(f: Feature) {
    && f.kind == "Feature"
    && (|| f.geometry.None?
        || (f.geometry.value.kind == "LineString"
            && (!HasEndpoints(f.geometry.value) || f.properties.Null?)))
  }

  /** The references of a property list are exactly the parsable entries, with
      the endpoints of the geometry. */
  lemma {:induction false} PropRefsExact(entries: seq<(string, string)>, g: Geometry,
                                         parse: string -> Option<Interval>, ref: Ref)
    requires HasEndpoints(g)
    ensures ref in PropRefs(entries, g, parse) <==>
      && var cs := g.coordinates;
         && ref.aLng == cs[0][0] && ref.aLat == cs[0][1]
         && ref.bLng == cs[|cs| - 1][0] && ref.bLat == cs[|cs| - 1][1]
         && exists k :: 0 <= k < |entries| && entries[k].0 == ref.prop && parse(entries[k].1) == Some(ref.interval)
    decreases |entries|
  {
    if entries != [] {
      PropRefsExact(entries[1..], g, parse, ref);
      var tail := entries[1..];
      assert forall k :: 1 <= k < |entries| ==> entries[k] == tail[k - 1];
      if exists k :: 0 <= k < |entries| && entries[k].0 == ref.prop && parse(entries[k].1) == Some(ref.interval) {
        var k :| 0 <= k < |entries| && entries[k].0 == ref.prop && parse(entries[k].1) == Some(ref.interval);
        if k > 0 {
          assert tail[k - 1] == entries[k];
        }
      }
    }
  }

  /** A single feature's contribution: it fails exactly when `Fails` holds, and
      otherwise yields exactly the references `Yields` describes. */
  lemma FeatureRefsExact(f: Feature, parse: string -> Option<Interval>, ref: Ref)
    ensures FeatureRefs(f, parse).Err? <==> Fails(f)
    ensures FeatureRefs(f, parse).Ok? ==> (ref in FeatureRefs(f, parse).value <==> Yields(f, parse, ref))
  {
    if f.kind == "Feature" && f.geometry.Some? && f.geometry.value.kind == "LineString"
       && HasEndpoints(f.geometry.value) && f.properties.Object? {
      PropRefsExact(f.properties.entries, f.geometry.value, parse, ref);
    }
  }

  /** The listing aborts exactly when some feature fails; otherwise a reference
      is listed exactly when some feature yields it. */
  lemma {:induction false} ExtractRefsExact(features: seq<Feature>, parse: string -> Option<Interval>, ref: Ref)
    ensures ExtractRefs(features, parse).Err? <==> exists i :: 0 <= i < |features| && Fails(features[i])
    ensures ExtractRefs(features, parse).Ok? ==>
      (ref in ExtractRefs(features, parse).value <==> exists i :: 0 <= i < |features| && Yields(features[i], parse, ref))
    decreases |features|
  {
    if features != [] {
      var tail := features[1..];
      ExtractRefsExact(tail, parse, ref);
      FeatureRefsExact(features[0], parse, ref);
      assert forall i :: 1 <= i < |features| ==> features[i] == tail[i - 1];
      if exists i :: 0 <= i < |features| && Fails(features[i]) {
        var i :| 0 <= i < |features| && Fails(features[i]);
        if i > 0 { assert Fails(tail[i - 1]); }
      }
      if exists i :: 0 <= i < |features| && Yields(features[i], parse, ref) {
        var i :| 0 <= i < |features| && Yields(features[i], parse, ref);
        if i > 0 { assert Yields(tail[i - 1], parse, ref); }
      }
    }
  }
}
