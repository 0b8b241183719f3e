/**
 * The two osmium handlers that read OpenStreetMap data. osmium calls one
 * callback per node, area or relation; each callback inspects the object's
 * tags and may append one record to the handler's `osm_data` list.
 *
 * Building a geometry (the WKB factory, the location lookups, Shapely's
 * buffer and envelope) is foreign code. It is the parameter `build`: a partial
 * function from an object to the envelope of its buffered geometry, `None`
 * when construction raises.
 */
module Handlers {
  import opened Wrappers
  import opened Geo

  type Tags = map<string, string>

  /** Which osmium callback receives the object. */
  datatype Kind = NodeKind | AreaKind | RelationKind

  /** An OSM object as osmium hands it to a callback. */
  datatype Element = Element(kind: Kind, id: int, tags: Tags)

  /** A row of the postcode frame: the `addr:postcode` value and the envelope. */
  datatype PostcodeFeature = PostcodeFeature(postcode: string, envelope: Rect)

  const PostcodeKey := "addr:postcode"
  const BuildingKey := "building"

  /** `'type' in tags and tags['type'] == 'multipolygon'` */
  predicate IsMultipolygon(tags: Tags) {
    "type" in tags && tags["type"] == "multipolygon"
  }

  /** The tag test of PostcodeHandler's callbacks; relations also need `type=multipolygon`. */
  predicate SelectsPostcode(e: Element) {
    PostcodeKey in e.tags && (e.kind == RelationKind ==> IsMultipolygon(e.tags))
  }

  /**
   * The tag test of BuildingHandler's callbacks. It has no node callback, so
   * osmium's default (which does nothing) handles nodes.
   */
  predicate SelectsBuilding(e: Element) {
    e.kind != NodeKind && BuildingKey in e.tags && (e.kind == RelationKind ==> IsMultipolygon(e.tags))
  }

  /** What one PostcodeHandler callback appends for `e`: nothing, or one record. */
  function PostcodeRecordOf(build: Element -> Option<Rect>, e: Element): seq<PostcodeFeature> {
    if SelectsPostcode(e) && build(e).Some? then [PostcodeFeature(e.tags[PostcodeKey], build(e).value)] else []
  }

  /** What one BuildingHandler callback appends for `e`: nothing, or one envelope. */
  function BuildingRecordOf(build: Element -> Option<Rect>, e: Element): seq<Rect> {
    if SelectsBuilding(e) && build(e).Some? then [build(e).value] else []
  }

  /** `osm_data` of a PostcodeHandler after osmium has visited `es` in order. */
  function PostcodeRecords(build: Element -> Option<Rect>, es: seq<Element>): seq<PostcodeFeature> {
    if es == [] then [] else PostcodeRecords(build, es[..|es| - 1]) + PostcodeRecordOf(build, es[|es| - 1])
  }

  /** `osm_data` of a BuildingHandler after osmium has visited `es` in order. */
  function BuildingRecords(build: Element -> Option<Rect>, es: seq<Element>): seq<Rect> {
    if es == [] then [] else BuildingRecords(build, es[..|es| - 1]) + BuildingRecordOf(build, es[|es| - 1])
  }

  /** PostcodeHandler: the postcode-tagged features, gathered in `osmData`. */
  class PostcodeHandler {
    const build: Element -> Option<Rect>
    var osmData: seq<PostcodeFeature>
    /** The objects osmium has passed to the callbacks so far. */
    ghost var visited: seq<Element>

    ghost predicate Valid()
      reads this
    {
      osmData == PostcodeRecords(build, visited)
    }

    constructor(build: Element -> Option<Rect>)
      ensures this.build == build && osmData == [] && visited == [] && Valid()
    {
      this.build := build;
      osmData := [];
      visited := [];
    }

    /**
     * `node`: no try block here, so a geometry that cannot be built raises out
     * of the callback (`raised`) and nothing is appended.
     */
    method Node(n: Element) returns (raised: bool)
      requires n.kind == NodeKind && Valid()
      modifies this
      ensures Valid() && visited == old(visited) + [n]
      ensures raised <==> PostcodeKey in n.tags && build(n).None?
      ensures osmData == old(osmData) + PostcodeRecordOf(build, n)
    {
      raised := false;
      if PostcodeKey in n.tags {
        match build(n)
        case Some(envelope) =>
          osmData := osmData + [PostcodeFeature(n.tags[PostcodeKey], envelope)];
        case None =>
          raised := true;
      }
      Visit(n);
    }

    /** `area`: every exception while building the geometry is swallowed. */
    method Area(a: Element)
      requires a.kind == AreaKind && Valid()
      modifies this
      ensures Valid() && visited == old(visited) + [a]
      ensures osmData == old(osmData) + PostcodeRecordOf(build, a)
    {
      if PostcodeKey in a.tags {
        match build(a)
        case Some(envelope) =>
          osmData := osmData + [PostcodeFeature(a.tags[PostcodeKey], envelope)];
        case None =>
      }
      Visit(a);
    }

    /** `relation`: as `area`, for multipolygon relations only. */
    method Relation(r: Element)
      requires r.kind == RelationKind && Valid()
      modifies this
      ensures Valid() && visited == old(visited) + [r]
      ensures osmData == old(osmData) + PostcodeRecordOf(build, r)
    {
      if PostcodeKey in r.tags && "type" in r.tags && r.tags["type"] == "multipolygon" {
        match build(r)
        case Some(envelope) =>
          osmData := osmData + [PostcodeFeature(r.tags[PostcodeKey], envelope)];
        case None =>
      }
      Visit(r);
    }

    /** Records that `e` has been visited, once `osmData` has been updated for it. */
    ghost method Visit(e: Element)
      requires osmData == PostcodeRecords(build, visited) + PostcodeRecordOf(build, e)
      modifies this`visited
      ensures visited == old(visited) + [e] && Valid()
    {
      assert (visited + [e])[..|visited|] == visited;
      visited := visited + [e];
    }
  }

  /** BuildingHandler: the building envelopes, gathered in `osmData`. */
  class BuildingHandler {
    const build: Element -> Option<Rect>
    var osmData: seq<Rect>
    /** The areas and relations osmium has passed to the callbacks so far. */
    ghost var visited: seq<Element>

    ghost predicate Valid()
      reads this
    {
      osmData == BuildingRecords(build, visited)
    }

    constructor(build: Element -> Option<Rect>)
      ensures this.build == build && osmData == [] && visited == [] && Valid()
    {
      this.build := build;
      osmData := [];
      visited := [];
    }

    /** `area`: every exception while building the geometry is swallowed. */
    method Area(a: Element)
      requires a.kind == AreaKind && Valid()
      modifies this
      ensures Valid() && visited == old(visited) + [a]
      ensures osmData == old(osmData) + BuildingRecordOf(build, a)
    {
      if BuildingKey in a.tags {
        match build(a)
        case Some(envelope) =>
          osmData := osmData + [envelope];
        case None =>
      }
      Visit(a);
    }

    /** `relation`: as `area`, for multipolygon relations only. */
    method Relation(r: Element)
      requires r.kind == RelationKind && Valid()
      modifies this
      ensures Valid() && visited == old(visited) + [r]
      ensures osmData == old(osmData) + BuildingRecordOf(build, r)
    {
      if BuildingKey in r.tags && "type" in r.tags && r.tags["type"] == "multipolygon" {
        match build(r)
        case Some(envelope) =>
          osmData := osmData + [envelope];
        case None =>
      }
      Visit(r);
    }

    /** Records that `e` has been visited, once `osmData` has been updated for it. */
    ghost method Visit(e: Element)
      requires osmData == BuildingRecords(build, visited) + BuildingRecordOf(build, e)
      modifies this`visited
      ensures visited == old(visited) + [e] && Valid()
    {
      assert (visited + [e])[..|visited|] == visited;
      visited := visited + [e];
    }
  }

  // ---------------------------------------------------------------------------
  // What the handlers collect over a whole pass

  /** Visiting `xs` and then `ys` appends the records of `ys` after those of `xs`. */
  lemma {:induction false} PostcodeRecordsAppend(build: Element -> Option<Rect>, xs: seq<Element>, ys: seq<Element>)
    ensures PostcodeRecords(build, xs + ys) == PostcodeRecords(build, xs) + PostcodeRecords(build, ys)
    decreases |ys|
  {
    if ys != [] {
      var last := ys[|ys| - 1];
      assert (xs + ys)[..|xs + ys| - 1] == xs + ys[..|ys| - 1];
      PostcodeRecordsAppend(build, xs, ys[..|ys| - 1]);
    } else {
      assert xs + ys == xs;
    }
  }

  /** Visiting `xs` and then `ys` appends the envelopes of `ys` after those of `xs`. */
  lemma {:induction false} BuildingRecordsAppend(build: Element -> Option<Rect>, xs: seq<Element>, ys: seq<Element>)
    ensures BuildingRecords(build, xs + ys) == BuildingRecords(build, xs) + BuildingRecords(build, ys)
    decreases |ys|
  {
    if ys != [] {
      assert (xs + ys)[..|xs + ys| - 1] == xs + ys[..|ys| - 1];
      BuildingRecordsAppend(build, xs, ys[..|ys| - 1]);
    } else {
      assert xs + ys == xs;
    }
  }

  /**
   * A postcode record is there exactly when some visited object passes the
   * tag test and its geometry builds; it carries that object's `addr:postcode`
   * value and envelope. At most one record per object.
   */
  lemma {:induction false} PostcodeRecordsExactly(build: Element -> Option<Rect>, es: seq<Element>)
    ensures |PostcodeRecords(build, es)| <= |es|
    ensures forall f :: f in PostcodeRecords(build, es) <==>
      exists e :: e in es && SelectsPostcode(e) && build(e) == Some(f.envelope) && e.tags[PostcodeKey] == f.postcode
  {
    if es != [] {
      var init, last := es[..|es| - 1], es[|es| - 1];
      assert es == init + [last];
      PostcodeRecordsExactly(build, init);
      forall f | f in PostcodeRecords(build, es)
        ensures exists e :: e in es && SelectsPostcode(e) && build(e) == Some(f.envelope) && e.tags[PostcodeKey] == f.postcode
      {
        if f !in PostcodeRecords(build, init) {
          assert f in PostcodeRecordOf(build, last);
        }
      }
    }
  }

  /**
   * A building envelope is there exactly when some visited area or multipolygon
   * relation has a `building` tag and its geometry builds; nodes never
   * contribute. At most one envelope per object.
   */
  lemma {:induction false} BuildingRecordsExactly(build: Element -> Option<Rect>, es: seq<Element>)
    ensures |BuildingRecords(build, es)| <= |es|
    ensures forall b :: b in BuildingRecords(build, es) <==>
      exists e :: e in es && SelectsBuilding(e) && build(e) == Some(b)
  {
    if es != [] {
      var init, last := es[..|es| - 1], es[|es| - 1];
      assert es == init + [last];
      BuildingRecordsExactly(build, init);
    }
  }

  /** A pass over nodes only leaves the building list empty. */
  lemma {:induction false} NodesAddNoBuildings(build: Element -> Option<Rect>, es: seq<Element>)
    requires forall i | 0 <= i < |es| :: es[i].kind == NodeKind
    ensures BuildingRecords(build, es) == []
  {
    if es != [] {
      NodesAddNoBuildings(build, es[..|es| - 1]);
    }
  }
}
