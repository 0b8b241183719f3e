/**
 * `read_codepoint_open_file`: load one Code-Point Open file and reconcile its
 * centroids with the OSM postcode features and building envelopes.
 *
 * The frames are sequences of rows. `sjoin`, the boolean-mask selections,
 * `drop_duplicates` and `isin` are functions over those sequences; the
 * reference sets `CoveredPostcodes` and `AnchoredPostcodes` say independently
 * which postcodes the pipeline is meant to find, and the lemmas below prove
 * that the pipeline finds exactly those.
 */
module Reconcile {
  import opened Wrappers
  import opened Geo
  import Postcode
  import opened Handlers

  /** A Code-Point Open CSV row as far as it is used: postcode, Eastings, Northings. */
  datatype RawRow = RawRow(postcode: string, eastings: real, northings: real)

  /** A row of the `centroids` frame: normalised postcode and the centroid in longitude/latitude. */
  datatype Row = Row(postcode: string, point: Point)

  /** The three frames `read_codepoint_open_file` returns. */
  datatype Outputs = Outputs(centroids: seq<Row>, notInOsm: seq<Row>, nearBuildings: seq<Row>)

  /** The literal postcode the building stage filters out. */
  const Null := "null"

  /** `xs` is `ys` with some elements left out, the rest in their order. */
  ghost predicate IsSubsequence<T>(xs: seq<T>, ys: seq<T>)
    decreases |ys|
  {
    if ys == [] then xs == []
    else
      || (xs != [] && xs[|xs| - 1] == ys[|ys| - 1] && IsSubsequence(xs[..|xs| - 1], ys[..|ys| - 1]))
      || IsSubsequence(xs, ys[..|ys| - 1])
  }

  // ---------------------------------------------------------------------------
  // Loading

  /**
   * `read_csv` with `convert` (`fix_postcode`) as the converter of the
   * postcode column, the point built from Eastings and Northings, and `to_crs`
   * (the parameter `toLonLat`). A postcode the converter rejects raises out of
   * `read_csv`, so the file yields no rows at all.
   */
  function LoadRows(raw: seq<RawRow>, convert: string -> Option<string>, toLonLat: Point -> Point): (r: Option<seq<Row>>)
    ensures r.Some? <==> forall i | 0 <= i < |raw| :: convert(raw[i].postcode).Some?
    ensures r.Some? ==> |r.value| == |raw|
    ensures r.Some? ==> forall i | 0 <= i < |raw| ::
      && r.value[i].postcode == convert(raw[i].postcode).value
      && r.value[i].point == toLonLat(Point(raw[i].eastings, raw[i].northings))
  {
    if raw == [] then Some([])
    else
      var prefix, last := raw[..|raw| - 1], raw[|raw| - 1];
      assert forall i | 0 <= i < |prefix| :: prefix[i] == raw[i];
      match LoadRows(prefix, convert, toLonLat)
      case None => None
      case Some(init) =>
        match convert(last.postcode)
        case None => None
        case Some(postcode) => Some(init + [Row(postcode, toLonLat(Point(last.eastings, last.northings)))])
  }

  // ---------------------------------------------------------------------------
  // The frame operations

  /**
   * `gpd.sjoin(rows, right, how='inner', op='within')`: every pair of a row
   * and a right-hand record whose envelope `env` has the row's point within
   * it.
   */
  function SJoin<R(==,!new)>(rows: seq<Row>, right: seq<R>, env: R -> Rect): (pairs: seq<(Row, R)>)
    ensures forall p :: p in pairs <==> p.0 in rows && p.1 in right && Within(p.0.point, env(p.1))
  {
    if rows == [] then []
    else SJoin(rows[..|rows| - 1], right, env) + Matching(rows[|rows| - 1], right, env)
  }

  /** The pairs one row contributes to the spatial join. */
  function Matching<R(==,!new)>(row: Row, right: seq<R>, env: R -> Rect): (pairs: seq<(Row, R)>)
    ensures forall p :: p in pairs <==> p.0 == row && p.1 in right && Within(row.point, env(p.1))
  {
    if right == [] then []
    else
      var last := right[|right| - 1];
      Matching(row, right[..|right| - 1], env) + if Within(row.point, env(last)) then [(row, last)] else []
  }

  /** `pcs_in_osm[pcs_in_osm['Postcode_left'] == pcs_in_osm['Postcode_right']]` */
  function SamePostcode(pairs: seq<(Row, PostcodeFeature)>): (r: seq<(Row, PostcodeFeature)>)
    ensures forall p :: p in r <==> p in pairs && p.0.postcode == p.1.postcode
    ensures IsSubsequence(r, pairs)
  {
    if pairs == [] then []
    else
      var init, last := SamePostcode(pairs[..|pairs| - 1]), pairs[|pairs| - 1];
      if last.0.postcode == last.1.postcode then
        assert (init + [last])[..|init|] == init;
        init + [last]
      else init
  }

  /** `pcs_near_buildings[pcs_near_buildings['Postcode'] != 'null']` */
  function NotNull(pairs: seq<(Row, Rect)>): (r: seq<(Row, Rect)>)
    ensures forall p :: p in r <==> p in pairs && p.0.postcode != Null
    ensures IsSubsequence(r, pairs)
  {
    if pairs == [] then []
    else
      var init, last := NotNull(pairs[..|pairs| - 1]), pairs[|pairs| - 1];
      if last.0.postcode != Null then
        assert (init + [last])[..|init|] == init;
        init + [last]
      else init
  }

  /** The postcodes of the rows in the pairs. */
  function LeftPostcodes<R(==)>(pairs: seq<(Row, R)>): set<string> {
    set p | p in pairs :: p.0.postcode
  }

  /** Appending a pair adds its row's postcode. */
  lemma LeftPostcodesSnoc<R>(pairs: seq<(Row, R)>, p: (Row, R))
    ensures LeftPostcodes(pairs + [p]) == LeftPostcodes(pairs) + {p.0.postcode}
  {
    assert forall q | q in pairs + [p] :: q in pairs || q == p;
  }

  /** Every pair's row postcode is among the row postcodes. */
  lemma LeftPostcodesHas<R>(pairs: seq<(Row, R)>)
    ensures forall i | 0 <= i < |pairs| :: pairs[i].0.postcode in LeftPostcodes(pairs)
  {
    forall i | 0 <= i < |pairs| ensures pairs[i].0.postcode in LeftPostcodes(pairs) {
      assert pairs[i] in pairs;
    }
  }

  /**
   * `drop_duplicates(subset=[<postcode of the row>])`: one pair per postcode
   * (pandas keeps the first), in their order.
   */
  function DropDuplicates<R(==)>(pairs: seq<(Row, R)>): (r: seq<(Row, R)>)
    ensures LeftPostcodes(r) == LeftPostcodes(pairs)
    ensures IsSubsequence(r, pairs)
    ensures forall i, j | 0 <= i < j < |r| :: r[i].0.postcode != r[j].0.postcode
  {
    if pairs == [] then []
    else
      var prefix, last := pairs[..|pairs| - 1], pairs[|pairs| - 1];
      var init := DropDuplicates(prefix);
      assert pairs == prefix + [last];
      LeftPostcodesSnoc(prefix, last);
      if last.0.postcode in LeftPostcodes(init) then init
      else
        assert (init + [last])[..|init|] == init;
        LeftPostcodesSnoc(init, last);
        LeftPostcodesHas(init);
        init + [last]
  }

  /**
   * `rows.loc[rows.Postcode.isin(keys)]` when `inKeys`, and
   * `rows.loc[~rows.Postcode.isin(keys)]` otherwise: every row whose postcode
   * passes the test, with all its duplicates, in order.
   */
  function Select(rows: seq<Row>, keys: set<string>, inKeys: bool): (r: seq<Row>)
    ensures forall row :: row in r <==> row in rows && (row.postcode in keys) == inKeys
    ensures IsSubsequence(r, rows)
  {
    if rows == [] then []
    else
      var prefix, last := rows[..|rows| - 1], rows[|rows| - 1];
      var init := Select(prefix, keys, inKeys);
      assert rows == prefix + [last];
      assert forall row :: row in rows <==> row in prefix || row == last;
      if (last.postcode in keys) == inKeys then
        assert (init + [last])[..|init|] == init;
        init + [last]
      else init
  }

  /** Returned by sjoin as the envelope of a postcode feature. */
  function EnvelopeOf(f: PostcodeFeature): Rect {
    f.envelope
  }

  /** A building record is its own envelope. */
  function BuildingEnvelope(b: Rect): Rect {
    b
  }

  // ---------------------------------------------------------------------------
  // The reconciliation

  /**
   * Lines 118-131: the centroids not already tagged in OSM, and those of them
   * that lie within a building envelope, the latter selected again from all
   * centroids by postcode.
   */
  function Reconcile(centroids: seq<Row>, osmPostcodes: seq<PostcodeFeature>, osmBuildings: seq<Rect>): (r: Outputs)
    ensures r.centroids == centroids
    ensures IsSubsequence(r.notInOsm, centroids) && IsSubsequence(r.nearBuildings, centroids)
  {
    var pcsInOsm := DropDuplicates(SamePostcode(SJoin(centroids, osmPostcodes, EnvelopeOf)));
    var notInOsm := Select(centroids, LeftPostcodes(pcsInOsm), false);
    var pcsNearBuildings := DropDuplicates(NotNull(SJoin(notInOsm, osmBuildings, BuildingEnvelope)));
    var nearBuildings := Select(centroids, LeftPostcodes(pcsNearBuildings), true);
    Outputs(centroids, notInOsm, nearBuildings)
  }

  /** `read_codepoint_open_file`: load the rows, then reconcile them. */
  function ReadCodepointOpenFile(raw: seq<RawRow>, toLonLat: Point -> Point,
                                 osmPostcodes: seq<PostcodeFeature>, osmBuildings: seq<Rect>): (r: Option<Outputs>)
    ensures r.Some? <==> forall i | 0 <= i < |raw| :: Postcode.FixPostcode(raw[i].postcode).Some?
    ensures r.Some? ==> |r.value.centroids| == |raw|
    ensures r.Some? ==> forall row | row in r.value.centroids :: Postcode.IsNormalised(row.postcode)
  {
    var centroids :- LoadRows(raw, Postcode.FixPostcode, toLonLat);
    Some(Reconcile(centroids, osmPostcodes, osmBuildings))
  }

  // ---------------------------------------------------------------------------
  // What the reconciliation means

  /**
   * The postcodes already in OSM: those of rows whose point lies within the
   * envelope of an OSM feature tagged with the same postcode.
   */
  ghost function CoveredPostcodes(rows: seq<Row>, osmPostcodes: seq<PostcodeFeature>): set<string> {
    set row, f | row in rows && f in osmPostcodes && f.postcode == row.postcode && Within(row.point, f.envelope)
      :: row.postcode
  }

  /** The postcodes, other than "null", of rows whose point lies within a building envelope. */
  ghost function AnchoredPostcodes(rows: seq<Row>, osmBuildings: seq<Rect>): set<string> {
    set row, b | row in rows && b in osmBuildings && row.postcode != Null && Within(row.point, b) :: row.postcode
  }

  /** Selecting the rows outside `dropped` and then those in `keys` is selecting those in `keys`. */
  lemma {:induction false} SelectCompose(rows: seq<Row>, keys: set<string>, dropped: set<string>)
    requires keys !! dropped
    ensures Select(Select(rows, dropped, false), keys, true) == Select(rows, keys, true)
  {
    if rows != [] {
      SelectCompose(rows[..|rows| - 1], keys, dropped);
    }
  }

  /**
   * A selection keeps every duplicate of a row that passes and none of a row
   * that does not: the multiplicities are those of the input, or zero.
   */
  lemma {:induction false} SelectCounts(rows: seq<Row>, keys: set<string>, inKeys: bool)
    ensures forall row :: multiset(Select(rows, keys, inKeys))[row]
                        == if (row.postcode in keys) == inKeys then multiset(rows)[row] else 0
  {
    if rows != [] {
      var prefix, last := rows[..|rows| - 1], rows[|rows| - 1];
      assert rows == prefix + [last];
      assert multiset(rows) == multiset(prefix) + multiset{last};
      SelectCounts(prefix, keys, inKeys);
    }
  }

  /** A selection that no row passes is empty. */
  lemma {:induction false} SelectNone(rows: seq<Row>, keys: set<string>, inKeys: bool)
    requires forall row | row in rows :: (row.postcode in keys) != inKeys
    ensures Select(rows, keys, inKeys) == []
  {
    if rows != [] {
      var prefix := rows[..|rows| - 1];
      assert forall row | row in prefix :: row in rows;
      assert rows[|rows| - 1] in rows;
      SelectNone(prefix, keys, inKeys);
    }
  }

  /** A selection that every row passes keeps all of them. */
  lemma {:induction false} SelectAll(rows: seq<Row>, keys: set<string>, inKeys: bool)
    requires forall row | row in rows :: (row.postcode in keys) == inKeys
    ensures Select(rows, keys, inKeys) == rows
  {
    if rows != [] {
      var init, last := rows[..|rows| - 1], rows[|rows| - 1];
      assert rows == init + [last];
      assert last in rows;
      SelectAll(init, keys, inKeys);
      assert Select(rows, keys, inKeys) == Select(init, keys, inKeys) + [last];
    }
  }

  /**
   * The pipeline computes the reference sets: `centroids_not_in_osm` is every
   * centroid row whose postcode is not covered, and `centroids_near_buildings`
   * every centroid row whose postcode is anchored by a not-in-OSM row, which
   * is the same as selecting those rows from `centroids_not_in_osm`.
   */
  lemma ReconcileComputes(centroids: seq<Row>, osmPostcodes: seq<PostcodeFeature>, osmBuildings: seq<Rect>)
    ensures Reconcile(centroids, osmPostcodes, osmBuildings).notInOsm
         == Select(centroids, CoveredPostcodes(centroids, osmPostcodes), false)
    ensures Reconcile(centroids, osmPostcodes, osmBuildings).nearBuildings
         == Select(centroids, AnchoredPostcodes(Reconcile(centroids, osmPostcodes, osmBuildings).notInOsm, osmBuildings), true)
    ensures Reconcile(centroids, osmPostcodes, osmBuildings).nearBuildings
         == Select(Reconcile(centroids, osmPostcodes, osmBuildings).notInOsm,
                   AnchoredPostcodes(Reconcile(centroids, osmPostcodes, osmBuildings).notInOsm, osmBuildings), true)
  {
    var covered := CoveredPostcodes(centroids, osmPostcodes);
    InOsmKeys(centroids, osmPostcodes);
    var notInOsm := Select(centroids, covered, false);
    NearBuildingsKeys(notInOsm, osmBuildings);
    SelectCompose(centroids, AnchoredPostcodes(notInOsm, osmBuildings), covered);
  }

  /** The postcodes left in `pcs_in_osm` after line 122 are the covered postcodes. */
  lemma InOsmKeys(centroids: seq<Row>, osmPostcodes: seq<PostcodeFeature>)
    ensures LeftPostcodes(DropDuplicates(SamePostcode(SJoin(centroids, osmPostcodes, EnvelopeOf))))
         == CoveredPostcodes(centroids, osmPostcodes)
  {
    var covered := CoveredPostcodes(centroids, osmPostcodes);
    var joined := SamePostcode(SJoin(centroids, osmPostcodes, EnvelopeOf));
    forall k | k in covered ensures k in LeftPostcodes(joined) {
      var row, f :| row in centroids && f in osmPostcodes && f.postcode == row.postcode
                    && Within(row.point, f.envelope) && row.postcode == k;
      assert (row, f) in joined;
    }
  }

  /** The postcodes left in `pcs_near_buildings` after line 129 are the anchored postcodes. */
  lemma NearBuildingsKeys(notInOsm: seq<Row>, osmBuildings: seq<Rect>)
    ensures LeftPostcodes(DropDuplicates(NotNull(SJoin(notInOsm, osmBuildings, BuildingEnvelope))))
         == AnchoredPostcodes(notInOsm, osmBuildings)
  {
    var anchored := AnchoredPostcodes(notInOsm, osmBuildings);
    var joined := NotNull(SJoin(notInOsm, osmBuildings, BuildingEnvelope));
    forall k | k in anchored ensures k in LeftPostcodes(joined) {
      var row, b :| row in notInOsm && b in osmBuildings && row.postcode != Null && Within(row.point, b)
                    && row.postcode == k;
      assert (row, b) in joined;
    }
  }

  // ---------------------------------------------------------------------------
  // Consequences

  /** `centroids_near_buildings` ⊆ `centroids_not_in_osm` ⊆ `centroids`, each in order. */
  lemma SubsetChain(centroids: seq<Row>, osmPostcodes: seq<PostcodeFeature>, osmBuildings: seq<Rect>)
    ensures var r := Reconcile(centroids, osmPostcodes, osmBuildings);
      IsSubsequence(r.nearBuildings, r.notInOsm) && IsSubsequence(r.notInOsm, r.centroids)
  {
    ReconcileComputes(centroids, osmPostcodes, osmBuildings);
  }

  /**
   * A row leaves `centroids_not_in_osm` exactly when some row with its
   * postcode (itself or a duplicate) lies within an OSM envelope tagged with
   * that postcode. The anti-join is by postcode: all rows of a postcode are
   * kept, with every duplicate, or all are removed.
   */
  lemma NotInOsmExactly(centroids: seq<Row>, osmPostcodes: seq<PostcodeFeature>, osmBuildings: seq<Rect>, row: Row)
    requires row in centroids
    ensures var r := Reconcile(centroids, osmPostcodes, osmBuildings);
      row !in r.notInOsm <==>
        exists other, f :: other in centroids && f in osmPostcodes && other.postcode == row.postcode
                           && f.postcode == row.postcode && Within(other.point, f.envelope)
    ensures var r := Reconcile(centroids, osmPostcodes, osmBuildings);
      row in r.notInOsm ==>
        forall other | other in centroids && other.postcode == row.postcode ::
          multiset(r.notInOsm)[other] == multiset(centroids)[other]
  {
    ReconcileComputes(centroids, osmPostcodes, osmBuildings);
    SelectCounts(centroids, CoveredPostcodes(centroids, osmPostcodes), false);
    var covered := CoveredPostcodes(centroids, osmPostcodes);
    if row.postcode in covered {
      var other, f :| other in centroids && f in osmPostcodes && f.postcode == other.postcode
                      && Within(other.point, f.envelope) && other.postcode == row.postcode;
    }
  }

  /**
   * A row is in `centroids_near_buildings` exactly when its postcode is not
   * "null" and some row with that postcode that is not in OSM lies within a
   * building envelope.
   */
  lemma NearBuildingsExactly(centroids: seq<Row>, osmPostcodes: seq<PostcodeFeature>, osmBuildings: seq<Rect>, row: Row)
    requires row in centroids
    ensures var r := Reconcile(centroids, osmPostcodes, osmBuildings);
      row in r.nearBuildings <==>
        && row.postcode != Null
        && exists other, b :: other in r.notInOsm && b in osmBuildings && other.postcode == row.postcode
                              && Within(other.point, b)
  {
    ReconcileComputes(centroids, osmPostcodes, osmBuildings);
    var r := Reconcile(centroids, osmPostcodes, osmBuildings);
    if row in r.nearBuildings {
      var other, b :| other in r.notInOsm && b in osmBuildings && other.postcode != Null
                      && Within(other.point, b) && other.postcode == row.postcode;
    }
  }

  /** Without OSM postcodes nothing is in OSM; without buildings nothing is near one. */
  lemma EmptyOsmData(centroids: seq<Row>, osmPostcodes: seq<PostcodeFeature>, osmBuildings: seq<Rect>)
    ensures osmPostcodes == [] ==> Reconcile(centroids, osmPostcodes, osmBuildings).notInOsm == centroids
    ensures osmBuildings == [] ==> Reconcile(centroids, osmPostcodes, osmBuildings).nearBuildings == []
  {
    ReconcileComputes(centroids, osmPostcodes, osmBuildings);
    if osmPostcodes == [] {
      assert CoveredPostcodes(centroids, osmPostcodes) == {};
      SelectAll(centroids, {}, false);
    }
    if osmBuildings == [] {
      assert AnchoredPostcodes(Reconcile(centroids, osmPostcodes, osmBuildings).notInOsm, osmBuildings) == {};
      SelectNone(centroids, {}, true);
    }
  }

  /**
   * A row within an OSM envelope tagged with its own postcode is not in
   * `centroids_not_in_osm`, so it is not near a building either.
   */
  lemma TaggedRowIsCovered(centroids: seq<Row>, osmPostcodes: seq<PostcodeFeature>, osmBuildings: seq<Rect>,
                           row: Row, f: PostcodeFeature)
    requires row in centroids && f in osmPostcodes
    requires f.postcode == row.postcode && Within(row.point, f.envelope)
    ensures row !in Reconcile(centroids, osmPostcodes, osmBuildings).notInOsm
    ensures row !in Reconcile(centroids, osmPostcodes, osmBuildings).nearBuildings
  {
    ReconcileComputes(centroids, osmPostcodes, osmBuildings);
    assert row.postcode in CoveredPostcodes(centroids, osmPostcodes);
  }

  /**
   * A row whose postcode no row has within a matching OSM envelope, and which
   * itself lies within a building envelope, is anchored (unless its postcode
   * is "null").
   */
  lemma UntaggedRowInBuildingIsAnchored(centroids: seq<Row>, osmPostcodes: seq<PostcodeFeature>, osmBuildings: seq<Rect>,
                                        row: Row, b: Rect)
    requires row in centroids && b in osmBuildings && Within(row.point, b) && row.postcode != Null
    requires forall other, f | other in centroids && f in osmPostcodes && other.postcode == row.postcode ::
      !(f.postcode == row.postcode && Within(other.point, f.envelope))
    ensures row in Reconcile(centroids, osmPostcodes, osmBuildings).notInOsm
    ensures row in Reconcile(centroids, osmPostcodes, osmBuildings).nearBuildings
  {
    ReconcileComputes(centroids, osmPostcodes, osmBuildings);
    var r := Reconcile(centroids, osmPostcodes, osmBuildings);
    assert row in r.notInOsm;
    assert row.postcode in AnchoredPostcodes(r.notInOsm, osmBuildings);
  }

  /**
   * A row whose postcode is neither covered in OSM nor anchored by any of its
   * rows stays in `centroids_not_in_osm` and never reaches
   * `centroids_near_buildings`.
   */
  lemma UnplacedRowIsLeftForReview(centroids: seq<Row>, osmPostcodes: seq<PostcodeFeature>, osmBuildings: seq<Rect>,
                                   row: Row)
    requires row in centroids
    requires forall other, f | other in centroids && f in osmPostcodes && other.postcode == row.postcode ::
      !(f.postcode == row.postcode && Within(other.point, f.envelope))
    requires forall other, b | other in centroids && b in osmBuildings && other.postcode == row.postcode ::
      !Within(other.point, b)
    ensures row in Reconcile(centroids, osmPostcodes, osmBuildings).notInOsm
    ensures row !in Reconcile(centroids, osmPostcodes, osmBuildings).nearBuildings
  {
    ReconcileComputes(centroids, osmPostcodes, osmBuildings);
    var r := Reconcile(centroids, osmPostcodes, osmBuildings);
    assert row.postcode !in CoveredPostcodes(centroids, osmPostcodes);
    assert row.postcode !in AnchoredPostcodes(r.notInOsm, osmBuildings);
  }

  /** Loaded postcodes are normalised, so the "null" guard never removes a loaded row. */
  lemma LoadedPostcodesAreNotNull(raw: seq<RawRow>, toLonLat: Point -> Point)
    requires LoadRows(raw, Postcode.FixPostcode, toLonLat).Some?
    ensures forall row | row in LoadRows(raw, Postcode.FixPostcode, toLonLat).value :: row.postcode != Null
  {
    var rows := LoadRows(raw, Postcode.FixPostcode, toLonLat).value;
    forall row | row in rows ensures row.postcode != Null {
      var i :| 0 <= i < |rows| && rows[i] == row;
      Postcode.NormalisedIsNotNull(row.postcode);
    }
  }

  /** The row "AB101AB" loads as one row with its postcode normalised. */
  lemma ExampleLoad(toLonLat: Point -> Point)
    ensures LoadRows([RawRow("AB101AB", 395298.0, 801234.0)], Postcode.FixPostcode, toLonLat)
         == Some([Row("AB10 1AB", toLonLat(Point(395298.0, 801234.0)))])
  {
    var raw := [RawRow("AB101AB", 395298.0, 801234.0)];
    Postcode.ExampleInsertsSpace();
    assert raw[..0] == [];
    assert LoadRows(raw[..0], Postcode.FixPostcode, toLonLat) == Some([]);
    assert Postcode.FixPostcode(raw[0].postcode) == Some("AB10 1AB");
    assert [] + [Row("AB10 1AB", toLonLat(Point(395298.0, 801234.0)))]
        == [Row("AB10 1AB", toLonLat(Point(395298.0, 801234.0)))];
  }

  /**
   * A registry row "AB101AB" with no OSM postcode feature, whose reprojected
   * point lies within a building envelope, comes out once in each frame,
   * with its postcode normalised to "AB10 1AB".
   */
  lemma ExampleAnchoredToBuilding(toLonLat: Point -> Point, b: Rect)
    requires Within(toLonLat(Point(395298.0, 801234.0)), b)
    ensures var row := Row("AB10 1AB", toLonLat(Point(395298.0, 801234.0)));
      ReadCodepointOpenFile([RawRow("AB101AB", 395298.0, 801234.0)], toLonLat, [], [b])
        == Some(Outputs([row], [row], [row]))
  {
    var raw := [RawRow("AB101AB", 395298.0, 801234.0)];
    var row := Row("AB10 1AB", toLonLat(Point(395298.0, 801234.0)));
    ExampleLoad(toLonLat);
    assert ReadCodepointOpenFile(raw, toLonLat, [], [b]) == Some(Reconcile([row], [], [b]));
    EmptyOsmData([row], [], [b]);
    UntaggedRowInBuildingIsAnchored([row], [], [b], row, b);
    var near := Reconcile([row], [], [b]).nearBuildings;
    assert near == [row] by {
      assert IsSubsequence(near, [row]);
      assert row in near;
      assert [row][..0] == [];
    }
  }
}
