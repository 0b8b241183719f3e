/**
 * `write_osm_file`: one OSM XML document per frame, for review in an editor.
 * Every row becomes a node with a fresh negative id, its postcode as
 * `addr:postcode` and the marker tag `removemelater=yes`.
 *
 * The file handle is the returned string: each `f.write` appends to it.
 * Reprojecting a point and printing its coordinates is the parameter
 * `place`, which gives the latitude and longitude as the text written.
 */
module OsmWriter {
  import opened Geo
  import opened Reconcile
  import opened Postcode

  /** Latitude and longitude as the text `format` produces for them. */
  datatype LatLon = LatLon(lat: string, lon: string)

  /** One `<node>` element of the review file. */
  datatype OsmNode = OsmNode(id: int, lat: string, lon: string, postcode: string)

  const Header := "<?xml version=\"1.0\" encoding=\"UTF-8\"?><osm version=\"0.6\" generator=\"import_postcodes.py\" upload=\"false\">\n"
  const Footer := "</osm>\n"
  const IdPrefix := "  <node id=\""

  // ---------------------------------------------------------------------------
  // Decimal text of the ids

  /** Decimal digits of `n`, most significant first, without leading zeros. */
  function NatToString(n: nat): (s: string)
    ensures |s| >= 1
    ensures forall i | 0 <= i < |s| :: IsDigit(s[i])
    decreases n
  {
    if n < 10 then [(48 + n) as char] else NatToString(n / 10) + [(48 + n % 10) as char]
  }

  /** The value of a string of decimal digits. */
  function ParseNat(s: string): nat
    requires forall i | 0 <= i < |s| :: IsDigit(s[i])
  {
    if s == [] then 0
    else
      assert IsDigit(s[|s| - 1]);
      10 * ParseNat(s[..|s| - 1]) + (s[|s| - 1] as int - 48)
  }

  /** `'{}'.format(i)` for an integer: a minus sign, then the digits. */
  function IntToString(i: int): (s: string)
    ensures forall k | 0 <= k < |s| :: IsDigit(s[k]) || (k == 0 && s[k] == '-')
    ensures |s| >= 1 && (s[0] == '-' <==> i < 0)
  {
    if i < 0 then "-" + NatToString(-i) else NatToString(i)
  }

  /** Reading the digits back gives the number. */
  lemma {:induction false} ParseNatToString(n: nat)
    ensures ParseNat(NatToString(n)) == n
    decreases n
  {
    if n >= 10 {
      var s := NatToString(n);
      assert s[..|s| - 1] == NatToString(n / 10);
      ParseNatToString(n / 10);
    }
  }

  /** Strings that agree after a common prefix are equal. */
  lemma DropCommonPrefix(x: string, a: string, b: string)
    requires x + a == x + b
    ensures a == b
  {
    assert a == (x + a)[|x|..];
  }

  /** Different integers are written differently. */
  lemma IntToStringInjective(i: int, j: int)
    requires IntToString(i) == IntToString(j)
    ensures i == j
  {
    if i < 0 && j < 0 {
      DropCommonPrefix("-", NatToString(-i), NatToString(-j));
      ParseNatToString(-i);
      ParseNatToString(-j);
    } else if i >= 0 && j >= 0 {
      ParseNatToString(i);
      ParseNatToString(j);
    }
  }

  // ---------------------------------------------------------------------------
  // The document

  /** What the loop body writes for one node. */
  function NodeText(n: OsmNode): string {
    IdPrefix + IntToString(n.id) + NodeRest(n)
  }

  /** The node's text after its id: coordinates, the two tags, the closing tag. */
  function NodeRest(n: OsmNode): (s: string)
    ensures |s| >= 1 && s[0] == '"'
  {
    Coordinates(n) + PostcodeTag(n.postcode) + MarkerTag + NodeClose
  }

  /** The end of the node's opening tag, from the quote that closes the id. */
  function Coordinates(n: OsmNode): (s: string)
    ensures |s| >= 1 && s[0] == '"'
  {
    "\" lat=\"" + n.lat + "\" lon=\"" + n.lon + "\">\n"
  }

  /** The `addr:postcode` tag line; the value is written as it is, without XML escaping. */
  function PostcodeTag(postcode: string): string {
    "    <tag k=\"addr:postcode\" v=\"" + postcode + "\"/>\n"
  }

  const MarkerTag := "    <tag k=\"removemelater\" v=\"yes\"/>\n"
  const NodeClose := "  </node>\n"

  /** The strings of `ts`, one after another. */
  function Concat(ts: seq<string>): string {
    if ts == [] then "" else Concat(ts[..|ts| - 1]) + ts[|ts| - 1]
  }

  /** The text of each node, in order. */
  function NodeTexts(ns: seq<OsmNode>): (ts: seq<string>)
    ensures |ts| == |ns|
  {
    seq(|ns|, i requires 0 <= i < |ns| => NodeText(ns[i]))
  }

  /** The texts of the nodes, one after another. */
  function NodesText(ns: seq<OsmNode>): string {
    Concat(NodeTexts(ns))
  }

  /** The nodes written for `rows`: the k-th row, counting from 1, gets id -k. */
  function Nodes(rows: seq<Row>, place: Point -> LatLon): (ns: seq<OsmNode>)
    ensures |ns| == |rows|
  {
    seq(|rows|, k requires 0 <= k < |rows| =>
      OsmNode(-(k + 1), place(rows[k].point).lat, place(rows[k].point).lon, rows[k].postcode))
  }

  lemma AppendAssoc(a: string, b: string, c: string)
    ensures (a + b) + c == a + (b + c)
  {
  }

  /** `write_osm_file(rows, ...)`: the header, a node per row, the closing tag. */
  method WriteOsmFile(rows: seq<Row>, place: Point -> LatLon) returns (doc: string)
    ensures doc == Header + NodesText(Nodes(rows, place)) + Footer
  {
    ghost var texts := NodeTexts(Nodes(rows, place));
    doc := Header;
    var i := 0;
    for k := 0 to |rows|
      invariant i == -k
      invariant doc == Header + Concat(texts[..k])
    {
      i := i - 1;
      var ll := place(rows[k].point);
      assert texts[..k + 1][..k] == texts[..k];
      assert texts[k] == NodeText(OsmNode(i, ll.lat, ll.lon, rows[k].postcode));
      AppendAssoc(Header, Concat(texts[..k]), texts[k]);
      doc := doc + NodeText(OsmNode(i, ll.lat, ll.lon, rows[k].postcode));
    }
    assert texts[..|rows|] == texts;
    doc := doc + Footer;
  }

  // ---------------------------------------------------------------------------
  // What the document holds

  /**
   * Node k (from 0) has id -(k + 1): the ids are negative, strictly
   * decreasing and so pairwise distinct; each node carries its row's
   * postcode.
   */
  lemma NodeIds(rows: seq<Row>, place: Point -> LatLon)
    ensures forall k | 0 <= k < |rows| :: Nodes(rows, place)[k].id == -(k + 1) < 0
    ensures forall k | 0 <= k < |rows| :: Nodes(rows, place)[k].postcode == rows[k].postcode
    ensures forall j, k | 0 <= j < k < |rows| :: Nodes(rows, place)[j].id > Nodes(rows, place)[k].id
  {
  }

  /** The document starts with the XML header and ends with the closing tag. */
  lemma DocumentFraming(rows: seq<Row>, place: Point -> LatLon, doc: string)
    requires doc == Header + NodesText(Nodes(rows, place)) + Footer
    ensures |doc| >= |Header| + |Footer|
    ensures doc[..|Header|] == Header && doc[|doc| - |Footer|..] == Footer
  {
  }

  /** Concatenating `xs` and then `ys` appends the text of `ys` after that of `xs`. */
  lemma {:induction false} ConcatAppend(xs: seq<string>, ys: seq<string>)
    ensures Concat(xs + ys) == Concat(xs) + Concat(ys)
    decreases |ys|
  {
    if ys != [] {
      assert (xs + ys)[..|xs + ys| - 1] == xs + ys[..|ys| - 1];
      ConcatAppend(xs, ys[..|ys| - 1]);
    } else {
      assert xs + ys == xs;
    }
  }

  /**
   * Node k's text sits in the document between the texts of the nodes before
   * it and those after it: every row is written once, in row order.
   */
  lemma NodeInDocument(rows: seq<Row>, place: Point -> LatLon, k: nat)
    requires k < |rows|
    ensures var ts := NodeTexts(Nodes(rows, place));
      NodesText(Nodes(rows, place)) == Concat(ts[..k]) + NodeText(Nodes(rows, place)[k]) + Concat(ts[k + 1..])
  {
    var ts := NodeTexts(Nodes(rows, place));
    assert ts == ts[..k + 1] + ts[k + 1..];
    assert ts[..k + 1][..k] == ts[..k];
    ConcatAppend(ts[..k + 1], ts[k + 1..]);
  }

  /**
   * The nodes' text holds, for every row, the `addr:postcode` tag with that
   * row's postcode, followed at once by the `removemelater=yes` tag.
   */
  lemma RowTagsWritten(rows: seq<Row>, place: Point -> LatLon, k: nat) returns (pre: string, post: string)
    requires k < |rows|
    ensures NodesText(Nodes(rows, place)) == pre + PostcodeTag(rows[k].postcode) + MarkerTag + post
  {
    NodeInDocument(rows, place, k);
    var ts := NodeTexts(Nodes(rows, place));
    var n := Nodes(rows, place)[k];
    var before, after := Concat(ts[..k]), Concat(ts[k + 1..]);
    var x, y := IdPrefix + IntToString(n.id), Coordinates(n);
    var tag := PostcodeTag(n.postcode);
    assert NodeText(n) == x + (y + tag + MarkerTag + NodeClose);
    Regroup(before, x, y, tag, MarkerTag, NodeClose, after);
    pre, post := before + x + y, NodeClose + after;
  }

  /** Moving the parentheses in a concatenation of seven strings. */
  lemma Regroup(a: string, x: string, y: string, p: string, m: string, c: string, b: string)
    ensures a + (x + (y + p + m + c)) + b == (a + x + y) + p + m + (c + b)
  {
  }

  /** In `a + r`, where `a` has no quote and `r` starts with one, the first quote is at `|a|`. */
  lemma FirstQuote(a: string, r: string)
    requires forall k | 0 <= k < |a| :: a[k] != '"'
    requires |r| >= 1 && r[0] == '"'
    ensures (a + r)[|a|] == '"'
    ensures forall k | 0 <= k < |a| :: (a + r)[k] != '"'
  {
  }

  /** The id text ends where the first quote after it begins. */
  lemma IdTextDelimited(a: string, ra: string, b: string, rb: string)
    requires forall k | 0 <= k < |a| :: a[k] != '"'
    requires forall k | 0 <= k < |b| :: b[k] != '"'
    requires |ra| >= 1 && ra[0] == '"' && |rb| >= 1 && rb[0] == '"'
    requires a + ra == b + rb
    ensures a == b
  {
    FirstQuote(a, ra);
    FirstQuote(b, rb);
    if |a| != |b| {
      assert false;
    }
    assert a == (a + ra)[..|a|] == b;
  }

  /** The id written in a node's text can be read back: equal texts mean equal ids. */
  lemma NodeTextDeterminesId(n: OsmNode, m: OsmNode)
    requires NodeText(n) == NodeText(m)
    ensures n.id == m.id
  {
    var a, b := IntToString(n.id), IntToString(m.id);
    AppendAssoc(IdPrefix, a, NodeRest(n));
    AppendAssoc(IdPrefix, b, NodeRest(m));
    DropCommonPrefix(IdPrefix, a + NodeRest(n), b + NodeRest(m));
    IdTextDelimited(a, NodeRest(n), b, NodeRest(m));
    IntToStringInjective(n.id, m.id);
  }

  /** Different rows of one file are written as different node texts. */
  lemma WrittenNodesDistinct(rows: seq<Row>, place: Point -> LatLon, j: nat, k: nat)
    requires j < k < |rows|
    ensures NodeText(Nodes(rows, place)[j]) != NodeText(Nodes(rows, place)[k])
  {
    if NodeText(Nodes(rows, place)[j]) == NodeText(Nodes(rows, place)[k]) {
      NodeTextDeterminesId(Nodes(rows, place)[j], Nodes(rows, place)[k]);
    }
  }
}
