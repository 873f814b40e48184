/** Bytes, and text tests, shared by the modules that read and write files. */
module Text {
  type Byte = x: int | 0 <= x < 256
  type Bytes = seq<Byte>

  /** Unicode White_Space, the property behind Rust's `trim` family. */
  predicate IsWhitespace(c: char) {
    var p := c as int;
    || 0x09 <= p <= 0x0D || p == 0x20 || p == 0x85 || p == 0xA0 || p == 0x1680
    || 0x2000 <= p <= 0x200A || p == 0x2028 || p == 0x2029 || p == 0x202F || p == 0x205F || p == 0x3000
  }

  predicate Blank(s: string) {
    forall c | c in s :: IsWhitespace(c)
  }

  function TrimEnd(s: string): (r: string)
    ensures r <= s && (r != [] ==> !IsWhitespace(r[|r| - 1])) && Blank(s[|r|..])
  {
    if s == [] || !IsWhitespace(s[|s| - 1]) then s else
      var r := TrimEnd(s[..|s| - 1]);
      assert s[|r|..] == s[..|s| - 1][|r|..] + [s[|s| - 1]];
      r
  }

  function TrimStart(s: string): string {
    if s == [] || !IsWhitespace(s[0]) then s else TrimStart(s[1..])
  }

  function Trim(s: string): string {
    TrimStart(TrimEnd(s))
  }

  lemma {:induction false} TrimStartIs(s: string) returns (n: nat)
    ensures n <= |s| && TrimStart(s) == s[n..] && Blank(s[..n]) && (n < |s| ==> !IsWhitespace(s[n]))
  {
    if s == [] || !IsWhitespace(s[0]) {
      n := 0;
    } else {
      n := TrimStartIs(s[1..]);
      n := n + 1;
      assert s[..n] == [s[0]] + s[1..][..n - 1];
    }
  }

  lemma BlankParts(a: string, t: string, b: string)
    requires Blank(a) && Blank(b)
    ensures Blank(a + t + b) <==> Blank(t)
  {
    hide IsWhitespace;
    var s := a + t + b;
    assert forall c | c in t :: c in s;
    assert forall c | c in s :: c in a || c in t || c in b;
  }

  /** Trimming takes away blank text at both ends, and all of it. */
  lemma {:induction false} TrimIs(s: string)
    ensures exists a, b :: s == a + Trim(s) + b && Blank(a) && Blank(b)
    ensures Trim(s) != [] ==> !IsWhitespace(Trim(s)[0]) && !IsWhitespace(Trim(s)[|Trim(s)| - 1])
    ensures Trim(s) == [] <==> Blank(s)
  {
    hide IsWhitespace, TrimEnd, TrimStart, Blank;
    var r := TrimEnd(s);
    var n := TrimStartIs(r);
    var a, t, b := r[..n], r[n..], s[|r|..];
    assert s == a + t + b;
    BlankParts(a, t, b);
    if t == [] {
      NothingIsBlank();
    } else {
      assert t[|t| - 1] == r[|r| - 1];
      NotBlank(t);
    }
  }

  lemma NothingIsBlank()
    ensures Blank([])
  {
  }

  lemma NotBlank(t: string)
    requires t != [] && !IsWhitespace(t[0])
    ensures !Blank(t)
  {
    assert t[0] in t;
  }

  /** White_Space of the Unicode Character Database: 25 code points. */
  const WHITE_SPACE: set<int> := {
    0x09, 0x0A, 0x0B, 0x0C, 0x0D, 0x20, 0x85, 0xA0, 0x1680, 0x2000, 0x2001, 0x2002, 0x2003, 0x2004, 0x2005, 0x2006,
    0x2007, 0x2008, 0x2009, 0x200A, 0x2028, 0x2029, 0x202F, 0x205F, 0x3000}

  lemma WhitespaceIs(c: char)
    ensures IsWhitespace(c) <==> c as int in WHITE_SPACE
  {
  }
}

/**
 The portable graph records of a conversation export. Identifiers are a type parameter,
 so that the raw graph a builder reads and the portable graph it writes share one shape.
 Fields no modelled check looks inside are carried as one string.
 */
module ExportModel {
  import opened GraphChecks

  datatype Option<+T> = None | Some(value: T)

  const V3 := 3
  const V4 := 4
  const MAX_LAYERS_PER_TURN := 10_000
  const MAX_NODES_PER_LAYER := 8
  const MAX_EDGES_PER_LAYER := 28
  const MAX_ACTIONS_PER_LAYER := 64

  datatype Kind = Navigate | Invoke | Input
  datatype Relation = Expand | Reference

  /** `base` holds kind, icon, title, detail and state. */
  datatype Node<I> = Node(
    id: I, clientKey: Option<string>, base: string, artifact: Option<string>,
    authoredDetail: Option<string>, authoredDetailOmitted: Option<string>, assets: seq<string>)

  /** `face` holds label, variant, icon, description and state. */
  datatype Action<I> = Action(
    id: I, clientKey: Option<string>, sourceNode: I, sourceLayer: Option<I>,
    kind: Kind, relation: Option<Relation>, target: Option<I>, converted: bool,
    interactionText: Option<string>, input: Option<string>, inputActions: seq<I>,
    reusable: Option<bool>, face: string)

  /** How one edge is drawn: its two ends if given, whether it passes through waypoints, and the rest. */
  datatype Route<I> = Route(edge: I, ends: seq<I>, bent: bool, path: string)

  /** An authored layout: which node each placement is for, the edge routes, and the coordinates and shapes. */
  datatype Layout<I> = Layout(placements: seq<I>, routes: seq<Route<I>>, style: string)

  /** A resolved layer with its snapshot membership. */
  datatype Layer<I> = Layer(
    id: I, clientKey: Option<string>, memberNodes: seq<I>, memberEdges: seq<I>, defaultNode: Option<I>,
    nodes: seq<Node<I>>, edges: seq<Edge<I>>, actions: seq<Action<I>>,
    layout: Option<Layout<I>>, renderer: Option<string>)

  datatype View<I> = View(interactionNode: I, rootAction: Action<I>, rootLayer: I, layers: seq<Layer<I>>)

  function NodeIds<I>(nodes: seq<Node<I>>): (ids: seq<I>)
    ensures |ids| == |nodes| && forall i | 0 <= i < |nodes| :: ids[i] == nodes[i].id
  {
    seq(|nodes|, i requires 0 <= i < |nodes| => nodes[i].id)
  }

  function EdgeIds<I>(edges: seq<Edge<I>>): (ids: seq<I>)
    ensures |ids| == |edges| && forall i | 0 <= i < |edges| :: ids[i] == edges[i].id
  {
    seq(|edges|, i requires 0 <= i < |edges| => edges[i].id)
  }

  function ActionIds<I>(actions: seq<Action<I>>): (ids: seq<I>)
    ensures |ids| == |actions| && forall i | 0 <= i < |actions| :: ids[i] == actions[i].id
  {
    seq(|actions|, i requires 0 <= i < |actions| => actions[i].id)
  }

  function RouteIds<I>(routes: seq<Route<I>>): (ids: seq<I>)
    ensures |ids| == |routes| && forall i | 0 <= i < |routes| :: ids[i] == routes[i].edge
  {
    seq(|routes|, i requires 0 <= i < |routes| => routes[i].edge)
  }

  function LayerIds<I>(layers: seq<Layer<I>>): (ids: seq<I>)
    ensures |ids| == |layers| && forall i | 0 <= i < |layers| :: ids[i] == layers[i].id
  {
    seq(|layers|, i requires 0 <= i < |layers| => layers[i].id)
  }
}
