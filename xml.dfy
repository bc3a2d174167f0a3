// The element tree of a generated .csproj file and the one edit the create
// command makes to it: the first MonoGameContentReference element in
// document order gets a new Include path and a Link child in front of its
// other children. Parsing and saving the file are not modelled.

module Xml {
  import opened Base

  datatype Attr = Attr(name: string, value: string)

  datatype Node =
    | Element(tag: string, attrs: seq<Attr>, children: seq<Node>)
    | Text(text: string)

  const ContentReferenceTag := "MonoGameContentReference"

  predicate IsReference(n: Node) {
    n.Element? && n.tag == ContentReferenceTag
  }

  /** A position in the tree: the child index taken at each level. */
  type Position = seq<nat>

  /** The node at position `p`, if there is one. */
  function At(n: Node, p: Position): Option<Node>
    decreases p
  {
    if |p| == 0 then Some(n)
    else if n.Element? && p[0] < |n.children| then At(n.children[p[0]], p[1..])
    else None
  }

  predicate IsRefAt(n: Node, p: Position) {
    At(n, p).Some? && IsReference(At(n, p).value)
  }

  /** Document order: `p` is visited no later than `q` (an ancestor comes
      before its descendants, an earlier sibling before a later one). */
  predicate NotAfter(p: Position, q: Position)
    decreases p
  {
    |p| == 0 || (|q| > 0 && (p[0] < q[0] || (p[0] == q[0] && NotAfter(p[1..], q[1..]))))
  }

  /** A text node holds no reference. */
  lemma TextHasNoReference(n: Node)
    requires n.Text?
    ensures forall q :: !IsRefAt(n, q)
  {
    forall q ensures !IsRefAt(n, q) {
      if |q| > 0 {
        assert At(n, q) == None;
      }
    }
  }

  /** A reference below an element that is not one itself sits below one
      of its children. */
  lemma ReferenceBelow(n: Node)
    requires n.Element? && !IsReference(n)
    ensures forall q :: IsRefAt(n, q) ==> |q| > 0 && q[0] < |n.children| && IsRefAt(n.children[q[0]], q[1..])
  {
  }

  /** The position of the first MonoGameContentReference in document order,
      as XmlDocument.GetElementsByTagName(...)[0] finds it. */
  function FindFirst(n: Node): (r: Option<Position>)
    ensures r.None? <==> forall q :: !IsRefAt(n, q)
    ensures r.Some? ==> IsRefAt(n, r.value)
    ensures r.Some? ==> forall q :: IsRefAt(n, q) ==> NotAfter(r.value, q)
    decreases n, 1
  {
    if IsReference(n) then
      assert IsRefAt(n, []);
      assert forall q :: NotAfter([], q);
      Some([])
    else if n.Text? then
      TextHasNoReference(n);
      None
    else
      ReferenceBelow(n);
      var r := FindFirstAmong(n.children, 0);
      if r.None? then None
      else
        assert forall q :: IsRefAt(n, q) ==> [q[0]] + q[1..] == q;
        r
  }

  /** The first reference below `cs[k..]`, its position starting with the
      child's index in `cs`. */
  function FindFirstAmong(cs: seq<Node>, k: nat): (r: Option<Position>)
    requires k <= |cs|
    ensures r.None? <==> forall j, q :: k <= j < |cs| ==> !IsRefAt(cs[j], q)
    ensures r.Some? ==> |r.value| > 0 && k <= r.value[0] < |cs| && IsRefAt(cs[r.value[0]], r.value[1..])
    ensures r.Some? ==> forall j, q :: k <= j < |cs| && IsRefAt(cs[j], q) ==> NotAfter(r.value, [j] + q)
    decreases cs, |cs| - k
  {
    if k == |cs| then None
    else
      var here := FindFirst(cs[k]);
      if here.Some? then
        var r := [k] + here.value;
        assert r[1..] == here.value;
        forall j, q | k <= j < |cs| && IsRefAt(cs[j], q) ensures NotAfter(r, [j] + q) {
          if j == k {
            assert ([j] + q)[1..] == q;
          }
        }
        Some(r)
      else
        FindFirstAmong(cs, k + 1)
  }

  /** The tree with the node at `p` replaced by `m` (unchanged if `p` is no position). */
  function ReplaceAt(n: Node, p: Position, m: Node): Node
    decreases p
  {
    if |p| == 0 then m
    else if n.Element? && p[0] < |n.children| then
      Element(n.tag, n.attrs, n.children[p[0] := ReplaceAt(n.children[p[0]], p[1..], m)])
    else n
  }

  /** Index of the first attribute named Include, or -1. */
  function IncludeIndex(attrs: seq<Attr>): (k: int)
    ensures -1 <= k < |attrs|
    ensures k == -1 <==> forall i :: 0 <= i < |attrs| ==> attrs[i].name != "Include"
    ensures k >= 0 ==> attrs[k].name == "Include" && forall j :: 0 <= j < k ==> attrs[j].name != "Include"
  {
    if |attrs| == 0 then -1
    else if attrs[0].name == "Include" then 0
    else
      var k := IncludeIndex(attrs[1..]);
      if k == -1 then -1 else k + 1
  }

  /** `attrs["Include"].Value = v` on the first attribute of that name; None
      when there is none (the source then dereferences null). */
  function SetInclude(attrs: seq<Attr>, v: string): (r: Option<seq<Attr>>)
    ensures r.None? <==> IncludeIndex(attrs) == -1
    ensures r.Some? ==> r.value == attrs[IncludeIndex(attrs) := Attr("Include", v)]
  {
    if |attrs| == 0 then None
    else if attrs[0].name == "Include" then Some([Attr("Include", v)] + attrs[1..])
    else
      match SetInclude(attrs[1..], v)
      case None => None
      case Some(rest) =>
        var r := [attrs[0]] + rest;
        assert r == attrs[IncludeIndex(attrs[1..]) + 1 := Attr("Include", v)];
        Some(r)
  }

  /** Value of the first attribute named `name`. */
  function AttrValue(attrs: seq<Attr>, name: string): Option<string> {
    if |attrs| == 0 then None
    else if attrs[0].name == name then Some(attrs[0].value)
    else AttrValue(attrs[1..], name)
  }

  /** `..\{gameName}\Content\Content.mgcb`: the shared project's content file. */
  function IncludePath(gameName: string): string {
    "..\\" + gameName + "\\Content\\Content.mgcb"
  }

  /** `<Link>Content\Content.mgcb</Link>` */
  const LinkElement := Element("Link", [], [Text("Content\\Content.mgcb")])

  /** The edit made to the content reference: new Include value, Link child prepended. */
  function Retarget(e: Node, gameName: string): (r: Option<Node>)
    requires e.Element?
    ensures r.None? <==> AttrValue(e.attrs, "Include").None?
    ensures r.Some? ==> (r.value.Element? && r.value.tag == e.tag
      && AttrValue(r.value.attrs, "Include") == Some(IncludePath(gameName))
      && SetInclude(e.attrs, IncludePath(gameName)) == Some(r.value.attrs)
      && r.value.children == [LinkElement] + e.children)
  {
    match SetInclude(e.attrs, IncludePath(gameName))
    case None =>
      NoIncludeValue(e.attrs);
      None
    case Some(attrs) =>
      IncludeValueSet(e.attrs, IncludePath(gameName));
      Some(Element(e.tag, attrs, [LinkElement] + e.children))
  }

  lemma {:induction false} NoIncludeValue(attrs: seq<Attr>)
    requires forall i :: 0 <= i < |attrs| ==> attrs[i].name != "Include"
    ensures AttrValue(attrs, "Include").None?
  {
    if |attrs| > 0 {
      NoIncludeValue(attrs[1..]);
    }
  }

  lemma {:induction false} IncludeValueSet(attrs: seq<Attr>, v: string)
    requires SetInclude(attrs, v).Some?
    ensures AttrValue(attrs, "Include").Some?
    ensures AttrValue(SetInclude(attrs, v).value, "Include") == Some(v)
  {
    if attrs[0].name != "Include" {
      IncludeValueSet(attrs[1..], v);
      assert SetInclude(attrs, v).value[1..] == SetInclude(attrs[1..], v).value;
    }
  }

  /** Create.CreateProjectTemplate, lines 103-113: rewrite the first content
      reference; None when there is none or it has no Include attribute. */
  function RewriteContentReference(doc: Node, gameName: string): (r: Option<Node>)
    ensures r.None? <==> (FindFirst(doc).None? ||
      AttrValue(At(doc, FindFirst(doc).value).value.attrs, "Include").None?)
  {
    match FindFirst(doc)
    case None => None
    case Some(p) =>
      match Retarget(At(doc, p).value, gameName)
      case None => None
      case Some(e) => Some(ReplaceAt(doc, p, e))
  }

  lemma {:induction false} PrefixNotAfter(p: Position, q: Position)
    requires IsPrefix(p, q)
    ensures NotAfter(p, q)
  {
    if |p| > 0 {
      assert q[1..][..|p| - 1] == p[1..];
      PrefixNotAfter(p[1..], q[1..]);
    }
  }

  /** Document order is antisymmetric. */
  lemma {:induction false} NotAfterAntisymmetric(p: Position, q: Position)
    requires NotAfter(p, q) && NotAfter(q, p)
    ensures p == q
  {
    if |p| > 0 {
      NotAfterAntisymmetric(p[1..], q[1..]);
      assert p == [p[0]] + p[1..] && q == [q[0]] + q[1..];
    }
  }

  /** After ReplaceAt, `m` sits at `p` and below it is `m`'s own subtree. */
  lemma {:induction false} AtReplaceBelow(n: Node, p: Position, m: Node, r: Position)
    requires At(n, p).Some?
    ensures At(ReplaceAt(n, p, m), p + r) == At(m, r)
  {
    if |p| > 0 {
      assert (p + r)[1..] == p[1..] + r;
      AtReplaceBelow(n.children[p[0]], p[1..], m, r);
    } else {
      assert p + r == r;
    }
  }

  /** Positions that are neither above nor below `p` see the old tree. */
  lemma {:induction false} AtReplaceApart(n: Node, p: Position, m: Node, q: Position)
    requires At(n, p).Some?
    requires !IsPrefix(p, q) && !IsPrefix(q, p)
    ensures At(ReplaceAt(n, p, m), q) == At(n, q)
  {
    assert |p| > 0 && |q| > 0;
    if p[0] == q[0] {
      PrefixCons(p, q);
      PrefixCons(q, p);
      AtReplaceApart(n.children[p[0]], p[1..], m, q[1..]);
    }
  }

  /** Positions above `p` keep their tag and attributes. */
  lemma {:induction false} AtReplaceAbove(n: Node, p: Position, m: Node, q: Position)
    requires At(n, p).Some?
    requires IsPrefix(q, p) && |q| < |p|
    ensures At(n, q).Some? && At(n, q).value.Element?
    ensures At(ReplaceAt(n, p, m), q).Some?
    ensures At(ReplaceAt(n, p, m), q).value.Element?
    ensures At(ReplaceAt(n, p, m), q).value.tag == At(n, q).value.tag
    ensures At(ReplaceAt(n, p, m), q).value.attrs == At(n, q).value.attrs
  {
    if |q| > 0 {
      assert p[1..][..|q| - 1] == q[1..];
      AtReplaceAbove(n.children[p[0]], p[1..], m, q[1..]);
    }
  }

  /** Walking `p` then `r` is walking `p + r`. */
  lemma {:induction false} AtSplit(n: Node, p: Position, r: Position)
    requires At(n, p).Some?
    ensures At(n, p + r) == At(At(n, p).value, r)
  {
    if |p| > 0 {
      assert (p + r)[1..] == p[1..] + r;
      AtSplit(n.children[p[0]], p[1..], r);
    } else {
      assert p + r == r;
    }
  }

  /** The first reference, after the rewrite: still a reference, Include set
      to the shared project's content file, and the Link as first child. */
  lemma RewriteTarget(doc: Node, gameName: string)
    requires RewriteContentReference(doc, gameName).Some?
    ensures var d := RewriteContentReference(doc, gameName).value;
      var p := FindFirst(doc).value;
      && IsRefAt(d, p)
      && AttrValue(At(d, p).value.attrs, "Include") == Some(IncludePath(gameName))
      && SetInclude(At(doc, p).value.attrs, IncludePath(gameName)) == Some(At(d, p).value.attrs)
      && At(d, p + [0]) == Some(LinkElement)
  {
    var p := FindFirst(doc).value;
    var e := Retarget(At(doc, p).value, gameName).value;
    AtReplaceBelow(doc, p, e, []);
    assert p + [] == p;
    AtReplaceBelow(doc, p, e, [0]);
  }

  /** The retargeted element's children are the old ones one place later. */
  lemma RetargetShifts(x: Node, gameName: string, i: nat, r: Position)
    requires x.Element? && Retarget(x, gameName).Some?
    ensures At(Retarget(x, gameName).value, [i + 1] + r) == At(x, [i] + r)
  {
    var e := Retarget(x, gameName).value;
    assert ([i + 1] + r)[0] == i + 1 && ([i + 1] + r)[1..] == r;
    assert ([i] + r)[0] == i && ([i] + r)[1..] == r;
    if i < |x.children| {
      assert e.children[i + 1] == x.children[i];
    }
  }

  /** The old children of the first reference follow the Link, one place later. */
  lemma RewriteShiftsChildren(doc: Node, gameName: string, i: nat, r: Position)
    requires RewriteContentReference(doc, gameName).Some?
    ensures var d := RewriteContentReference(doc, gameName).value;
      var p := FindFirst(doc).value;
      At(d, p + [i + 1] + r) == At(doc, p + [i] + r)
  {
    var p := FindFirst(doc).value;
    var x := At(doc, p).value;
    var e := Retarget(x, gameName).value;
    RetargetShifts(x, gameName, i, r);
    AtReplaceBelow(doc, p, e, [i + 1] + r);
    AtSplit(doc, p, [i] + r);
    assert p + [i + 1] + r == p + ([i + 1] + r);
    assert p + [i] + r == p + ([i] + r);
  }

  /** Every node neither above nor below the first reference is unchanged. */
  lemma RewriteElsewhere(doc: Node, gameName: string, q: Position)
    requires RewriteContentReference(doc, gameName).Some?
    requires !IsPrefix(FindFirst(doc).value, q) && !IsPrefix(q, FindFirst(doc).value)
    ensures At(RewriteContentReference(doc, gameName).value, q) == At(doc, q)
  {
    var p := FindFirst(doc).value;
    AtReplaceApart(doc, p, Retarget(At(doc, p).value, gameName).value, q);
  }

  /** The ancestors of the first reference keep their tag and attributes. */
  lemma RewriteAbove(doc: Node, gameName: string, q: Position)
    requires RewriteContentReference(doc, gameName).Some?
    requires IsPrefix(q, FindFirst(doc).value) && |q| < |FindFirst(doc).value|
    ensures At(doc, q).Some? && At(doc, q).value.Element?
    ensures var d := RewriteContentReference(doc, gameName).value;
      && At(d, q).Some? && At(d, q).value.Element?
      && At(d, q).value.tag == At(doc, q).value.tag
      && At(d, q).value.attrs == At(doc, q).value.attrs
  {
    var p := FindFirst(doc).value;
    AtReplaceAbove(doc, p, Retarget(At(doc, p).value, gameName).value, q);
  }

  /** The rewritten document's first reference is the same element, so a
      second run edits it again. */
  lemma RewriteKeepsFirst(doc: Node, gameName: string)
    requires RewriteContentReference(doc, gameName).Some?
    ensures FindFirst(RewriteContentReference(doc, gameName).value) == FindFirst(doc)
  {
    var p := FindFirst(doc).value;
    var d := RewriteContentReference(doc, gameName).value;
    RewriteTarget(doc, gameName);
    forall q | IsRefAt(d, q) ensures NotAfter(p, q) {
      if IsPrefix(p, q) {
        PrefixNotAfter(p, q);
      } else if IsPrefix(q, p) {
        RewriteAbove(doc, gameName, q);
        assert IsRefAt(doc, q);
      } else {
        RewriteElsewhere(doc, gameName, q);
        assert IsRefAt(doc, q);
      }
    }
    var f := FindFirst(d).value;
    NotAfterAntisymmetric(f, p);
  }

  /** Number of MonoGameContentReference elements in a tree. */
  function References(n: Node): nat
    decreases n, 1
  {
    (if IsReference(n) then 1 else 0) + (if n.Element? then ReferencesAmong(n.children) else 0)
  }

  function ReferencesAmong(cs: seq<Node>): nat
    decreases cs, 0
  {
    if |cs| == 0 then 0 else References(cs[0]) + ReferencesAmong(cs[1..])
  }

  lemma {:induction false} ReferencesAmongUpdate(cs: seq<Node>, i: nat, x: Node)
    requires i < |cs|
    ensures ReferencesAmong(cs[i := x]) + References(cs[i]) == ReferencesAmong(cs) + References(x)
  {
    if i > 0 {
      assert cs[i := x][1..] == cs[1..][i - 1 := x];
      ReferencesAmongUpdate(cs[1..], i - 1, x);
    } else {
      assert cs[i := x][1..] == cs[1..];
    }
  }

  lemma {:induction false} ReferencesReplace(n: Node, p: Position, m: Node)
    requires At(n, p).Some?
    ensures References(ReplaceAt(n, p, m)) + References(At(n, p).value) == References(n) + References(m)
  {
    if |p| > 0 {
      var c := n.children[p[0]];
      ReferencesReplace(c, p[1..], m);
      ReferencesAmongUpdate(n.children, p[0], ReplaceAt(c, p[1..], m));
    }
  }

  /** The rewrite adds no content reference: running it on its own output
      does not create a second one. */
  lemma RewriteKeepsCount(doc: Node, gameName: string)
    requires RewriteContentReference(doc, gameName).Some?
    ensures References(RewriteContentReference(doc, gameName).value) == References(doc)
  {
    var p := FindFirst(doc).value;
    var old_ := At(doc, p).value;
    var e := Retarget(old_, gameName).value;
    assert ([LinkElement] + old_.children)[1..] == old_.children;
    assert References(LinkElement) == 0 by {
      assert LinkElement.children[1..] == [];
    }
    assert ReferencesAmong([LinkElement] + old_.children) == ReferencesAmong(old_.children);
    assert References(e) == References(old_);
    ReferencesReplace(doc, p, e);
  }

  /** A second run finds the same element and can edit it again. */
  lemma RewriteAgain(doc: Node, gameName: string)
    requires RewriteContentReference(doc, gameName).Some?
    ensures var d := RewriteContentReference(doc, gameName).value;
      && FindFirst(d) == FindFirst(doc)
      && RewriteContentReference(d, gameName).Some?
  {
    RewriteTarget(doc, gameName);
    RewriteKeepsFirst(doc, gameName);
  }

  /** At the first reference, the Link comes first and the old first
      child second. */
  lemma LinkFirst(doc: Node, gameName: string, p: Position)
    requires RewriteContentReference(doc, gameName).Some? && FindFirst(doc) == Some(p)
    ensures At(RewriteContentReference(doc, gameName).value, p + [0]) == Some(LinkElement)
    ensures At(RewriteContentReference(doc, gameName).value, p + [1]) == At(doc, p + [0])
  {
    RewriteTarget(doc, gameName);
    RewriteShiftsChildren(doc, gameName, 0, []);
    assert p + [1] + [] == p + [1] && p + [0] + [] == p + [0];
  }

  /** The rewrite is not idempotent: a second run on the saved file succeeds
      and puts a second Link in front of the first. */
  lemma RewriteTwice(doc: Node, gameName: string)
    requires RewriteContentReference(doc, gameName).Some?
    ensures var d := RewriteContentReference(doc, gameName).value;
      var p := FindFirst(doc).value;
      && RewriteContentReference(d, gameName).Some?
      && At(RewriteContentReference(d, gameName).value, p + [0]) == Some(LinkElement)
      && At(RewriteContentReference(d, gameName).value, p + [1]) == Some(LinkElement)
  {
    var d := RewriteContentReference(doc, gameName).value;
    var p := FindFirst(doc).value;
    RewriteAgain(doc, gameName);
    LinkFirst(doc, gameName, p);
    LinkFirst(d, gameName, p);
  }
}
