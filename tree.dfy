// The parsed XML document as a value. A node is addressed by its path, the
// sequence of child indices that leads to it from the document element; the
// DOM operations the scripts use (setAttribute, the textContent setter and the
// data setter of a text node) are functions that rebuild the tree around one
// path, and the class Document holds the tree they mutate.
module Tree {
  import opened Wrappers

  /** An XML node. Comments, processing instructions, CDATA sections and
      namespaces are not modelled. */
  datatype Node =
    | Element(name: string, attrs: map<string, string>, children: seq<Node>)
    | Text(data: string)

  /** What a path sees of its node without looking into the children. */
  datatype Info =
    | ElementInfo(name: string, attrs: map<string, string>, arity: nat)
    | TextInfo(data: string)

  function InfoOf(n: Node): Info {
    match n
    case Element(name, attrs, cs) => ElementInfo(name, attrs, |cs|)
    case Text(d) => TextInfo(d)
  }

  type Path = seq<nat>

  predicate IsPrefix(a: Path, b: Path) {
    |a| <= |b| && b[..|a|] == a
  }

  /** `b` lies strictly below `a`. */
  predicate IsAncestor(a: Path, b: Path) {
    |a| < |b| && b[..|a|] == a
  }

  predicate Valid(t: Node, p: Path)
    decreases |p|
  {
    p == [] || (t.Element? && p[0] < |t.children| && Valid(t.children[p[0]], p[1..]))
  }

  function At(t: Node, p: Path): Node
    requires Valid(t, p)
    decreases |p|
  {
    if p == [] then t else At(t.children[p[0]], p[1..])
  }

  predicate IsElem(t: Node, p: Path) {
    Valid(t, p) && At(t, p).Element?
  }

  predicate HasName(t: Node, p: Path, name: string) {
    IsElem(t, p) && At(t, p).name == name
  }

  /** `getAttribute`: a missing attribute reads as null. */
  function GetAttribute(n: Node, key: string): Option<string>
    requires n.Element?
  {
    if key in n.attrs then Some(n.attrs[key]) else None
  }

  /** The `textContent` getter: the text of all descendant text nodes in
      document order. */
  function TextContent(n: Node): string
    decreases n
  {
    match n
    case Text(d) => d
    case Element(_, _, cs) => ChildrenText(cs)
  }

  function ChildrenText(cs: seq<Node>): string
    decreases cs
  {
    if cs == [] then "" else TextContent(cs[0]) + ChildrenText(cs[1..])
  }

  /** The children the `textContent` setter leaves: one text node, or none
      for the empty string. */
  function TextChildren(s: string): seq<Node> {
    if s == "" then [] else [Text(s)]
  }

  lemma TextContentOfTextChildren(n: Node, s: string)
    requires n.Element? && n.children == TextChildren(s)
    ensures TextContent(n) == s
  {
    if s != "" {
      assert n.children[1..] == [];
      assert ChildrenText(n.children) == TextContent(Text(s)) + ChildrenText([]);
    }
  }

  /** Replaces the node at `p` by `n`. */
  function Put(t: Node, p: Path, n: Node): Node
    requires Valid(t, p)
    decreases |p|
  {
    if p == [] then n
    else t.(children := t.children[p[0] := Put(t.children[p[0]], p[1..], n)])
  }

  lemma {:induction false} AtConcat(t: Node, p: Path, r: Path)
    requires Valid(t, p)
    ensures Valid(t, p + r) <==> Valid(At(t, p), r)
    ensures Valid(t, p + r) ==> At(t, p + r) == At(At(t, p), r)
    decreases |p|
  {
    if p == [] {
      assert p + r == r;
    } else {
      assert (p + r)[0] == p[0] && (p + r)[1..] == p[1..] + r;
      AtConcat(t.children[p[0]], p[1..], r);
    }
  }

  lemma PrefixTrans(a: Path, b: Path, c: Path)
    ensures IsPrefix(a, b) && IsPrefix(b, c) ==> IsPrefix(a, c)
  {
    if IsPrefix(a, b) && IsPrefix(b, c) {
      assert c[..|a|] == c[..|b|][..|a|];
    }
  }

  /** Two prefixes of one path are prefixes of each other, one way or the other. */
  lemma PrefixesComparable(a: Path, b: Path, c: Path)
    ensures IsPrefix(a, c) && IsPrefix(b, c) ==> IsPrefix(a, b) || IsPrefix(b, a)
  {
    if IsPrefix(a, c) && IsPrefix(b, c) {
      if |a| <= |b| {
        assert b[..|a|] == c[..|b|][..|a|] == c[..|a|];
      } else {
        assert a[..|b|] == c[..|a|][..|b|] == c[..|b|];
      }
    }
  }

  /** A path below `a` is apart from everything `a` is apart from. */
  lemma ApartBelow(a: Path, x: Path, b: Path)
    ensures IsPrefix(a, x) && !IsPrefix(a, b) && !IsPrefix(b, a) ==> !IsPrefix(x, b) && !IsPrefix(b, x)
  {
    PrefixTrans(a, x, b);
    PrefixesComparable(a, b, x);
  }

  /** A prefix is the path itself or an ancestor. */
  lemma PrefixCases(a: Path, b: Path)
    ensures IsPrefix(a, b) <==> a == b || IsAncestor(a, b)
  {
    if IsPrefix(a, b) && |a| == |b| {
      assert b[..|b|] == b;
    }
  }

  lemma PrefixSplit(p: Path, q: Path)
    requires IsPrefix(p, q)
    ensures q == p + q[|p|..]
  {
  }

  /** What `Put(t, p, n)` looks like from every path `q`. */
  lemma {:induction false} PutEffect(t: Node, p: Path, n: Node, q: Path)
    requires Valid(t, p)
    ensures IsPrefix(p, q) ==> (Valid(Put(t, p, n), q) <==> Valid(n, q[|p|..]))
    ensures IsPrefix(p, q) && Valid(n, q[|p|..]) ==> At(Put(t, p, n), q) == At(n, q[|p|..])
    ensures !IsPrefix(p, q) ==> (Valid(Put(t, p, n), q) <==> Valid(t, q))
    ensures !IsPrefix(p, q) && !IsPrefix(q, p) && Valid(t, q) ==> At(Put(t, p, n), q) == At(t, q)
    ensures IsAncestor(q, p) && Valid(t, q) ==> InfoOf(At(Put(t, p, n), q)) == InfoOf(At(t, q))
    decreases |p|
  {
    if p == [] {
      assert q[|p|..] == q;
    } else if q == [] {
    } else if q[0] != p[0] {
    } else {
      PutEffect(t.children[p[0]], p[1..], n, q[1..]);
      assert IsPrefix(p, q) <==> IsPrefix(p[1..], q[1..]);
      assert IsPrefix(q, p) <==> IsPrefix(q[1..], p[1..]);
      assert IsAncestor(q, p) <==> IsAncestor(q[1..], p[1..]);
      assert IsPrefix(p, q) ==> q[|p|..] == q[1..][|p[1..]|..];
    }
  }

  /** Two nodes with the same children look the same from every non-empty path. */
  lemma SameChildrenBelow(a: Node, b: Node, r: Path)
    requires a.Element? && b.Element? && a.children == b.children && r != []
    ensures Valid(a, r) <==> Valid(b, r)
    ensures Valid(a, r) ==> At(a, r) == At(b, r)
  {
  }

  /** Below a node whose children are `TextChildren(s)` there is no element. */
  lemma NoElementBelowText(a: Node, s: string, r: Path)
    requires a.Element? && a.children == TextChildren(s) && r != []
    ensures !(Valid(a, r) && At(a, r).Element?)
  {
    if Valid(a, r) {
      assert r[0] == 0 && a.children[0] == Text(s);
      if r[1..] != [] {
        assert !Valid(Text(s), r[1..]);
      }
    }
  }

  /** Below a node whose children are all text there is no element. */
  lemma NoElementBelowTexts(a: Node, r: Path)
    requires a.Element? && r != [] && forall c :: c in a.children ==> c.Text?
    ensures !(Valid(a, r) && At(a, r).Element?)
  {
    if Valid(a, r) {
      assert a.children[r[0]] in a.children;
      if r[1..] != [] {
        assert !Valid(a.children[r[0]], r[1..]);
      }
    }
  }

  /** `setAttribute(key, value)` on the element at `p`. */
  function WithAttr(t: Node, p: Path, key: string, value: string): (r: Node)
    requires IsElem(t, p)
    ensures forall q :: Valid(r, q) <==> Valid(t, q)
    ensures forall q :: Valid(t, q) && q != p ==> InfoOf(At(r, q)) == InfoOf(At(t, q))
    ensures forall q :: Valid(t, q) && !IsPrefix(q, p) ==> At(r, q) == At(t, q)
    ensures IsElem(r, p) && At(r, p) == At(t, p).(attrs := At(t, p).attrs[key := value])
  {
    var n := At(t, p).(attrs := At(t, p).attrs[key := value]);
    WithAttrEffect(t, p, n);
    Put(t, p, n)
  }

  lemma WithAttrEffect(t: Node, p: Path, n: Node)
    requires IsElem(t, p) && n.Element? && n.children == At(t, p).children && n.name == At(t, p).name
    ensures forall q :: Valid(Put(t, p, n), q) <==> Valid(t, q)
    ensures forall q :: Valid(t, q) && q != p ==> InfoOf(At(Put(t, p, n), q)) == InfoOf(At(t, q))
    ensures forall q :: Valid(t, q) && !IsPrefix(q, p) ==> At(Put(t, p, n), q) == At(t, q)
    ensures Valid(Put(t, p, n), p) && At(Put(t, p, n), p) == n
  {
    forall q
      ensures Valid(Put(t, p, n), q) <==> Valid(t, q)
      ensures Valid(t, q) && !IsPrefix(q, p) ==> At(Put(t, p, n), q) == At(t, q)
      ensures Valid(t, q) && q != p ==> InfoOf(At(Put(t, p, n), q)) == InfoOf(At(t, q))
    {
      PutEffect(t, p, n, q);
      if IsPrefix(p, q) {
        PrefixSplit(p, q);
        AtConcat(t, p, q[|p|..]);
        if q[|p|..] != [] {
          SameChildrenBelow(n, At(t, p), q[|p|..]);
        } else {
          assert q == p;
        }
      }
    }
    PutEffect(t, p, n, p);
    assert p[|p|..] == [];
  }

  /** The `textContent` setter on the element at `p`: its children become
      one text node holding `s`. */
  function WithText(t: Node, p: Path, s: string): (r: Node)
    requires IsElem(t, p)
    ensures forall q :: !IsAncestor(p, q) ==> (Valid(r, q) <==> Valid(t, q))
    ensures forall q :: Valid(t, q) && q != p && !IsAncestor(p, q) ==> InfoOf(At(r, q)) == InfoOf(At(t, q))
    ensures forall q :: Valid(t, q) && !IsPrefix(p, q) && !IsPrefix(q, p) ==> Valid(r, q) && At(r, q) == At(t, q)
    ensures forall q :: IsAncestor(p, q) ==> !IsElem(r, q)
    ensures IsElem(r, p) && At(r, p) == At(t, p).(children := TextChildren(s))
    ensures TextContent(At(r, p)) == s
  {
    var n := At(t, p).(children := TextChildren(s));
    WithTextEffect(t, p, n, s);
    TextContentOfTextChildren(n, s);
    Put(t, p, n)
  }

  lemma WithTextEffect(t: Node, p: Path, n: Node, s: string)
    requires IsElem(t, p) && n == At(t, p).(children := TextChildren(s))
    ensures forall q :: !IsAncestor(p, q) ==> (Valid(Put(t, p, n), q) <==> Valid(t, q))
    ensures forall q :: Valid(t, q) && q != p && !IsAncestor(p, q) ==> InfoOf(At(Put(t, p, n), q)) == InfoOf(At(t, q))
    ensures forall q :: Valid(t, q) && !IsPrefix(p, q) && !IsPrefix(q, p) ==> Valid(Put(t, p, n), q) && At(Put(t, p, n), q) == At(t, q)
    ensures forall q :: IsAncestor(p, q) ==> !IsElem(Put(t, p, n), q)
    ensures Valid(Put(t, p, n), p) && At(Put(t, p, n), p) == n
  {
    forall q
      ensures !IsAncestor(p, q) ==> (Valid(Put(t, p, n), q) <==> Valid(t, q))
      ensures Valid(t, q) && q != p && !IsAncestor(p, q) ==> InfoOf(At(Put(t, p, n), q)) == InfoOf(At(t, q))
      ensures Valid(t, q) && !IsPrefix(p, q) && !IsPrefix(q, p) ==> Valid(Put(t, p, n), q) && At(Put(t, p, n), q) == At(t, q)
      ensures IsAncestor(p, q) ==> !IsElem(Put(t, p, n), q)
    {
      PutEffect(t, p, n, q);
      if IsPrefix(p, q) {
        if q[|p|..] != [] {
          NoElementBelowText(n, s, q[|p|..]);
        } else {
          assert q == p;
        }
      }
    }
    PutEffect(t, p, n, p);
    assert p[|p|..] == [];
  }

  /** The `data` setter on the text node at `p`. */
  function WithData(t: Node, p: Path, s: string): (r: Node)
    requires Valid(t, p) && At(t, p).Text?
    ensures forall q :: Valid(r, q) <==> Valid(t, q)
    ensures forall q :: Valid(t, q) && q != p ==> InfoOf(At(r, q)) == InfoOf(At(t, q))
    ensures forall q :: Valid(t, q) && !IsPrefix(q, p) ==> At(r, q) == At(t, q)
    ensures Valid(r, p) && At(r, p) == Text(s)
  {
    WithDataEffect(t, p, s);
    Put(t, p, Text(s))
  }

  lemma WithDataEffect(t: Node, p: Path, s: string)
    requires Valid(t, p) && At(t, p).Text?
    ensures forall q :: Valid(Put(t, p, Text(s)), q) <==> Valid(t, q)
    ensures forall q :: Valid(t, q) && q != p ==> InfoOf(At(Put(t, p, Text(s)), q)) == InfoOf(At(t, q))
    ensures forall q :: Valid(t, q) && !IsPrefix(q, p) ==> At(Put(t, p, Text(s)), q) == At(t, q)
    ensures Valid(Put(t, p, Text(s)), p) && At(Put(t, p, Text(s)), p) == Text(s)
  {
    forall q
      ensures Valid(Put(t, p, Text(s)), q) <==> Valid(t, q)
      ensures Valid(t, q) && !IsPrefix(q, p) ==> At(Put(t, p, Text(s)), q) == At(t, q)
      ensures Valid(t, q) && q != p ==> InfoOf(At(Put(t, p, Text(s)), q)) == InfoOf(At(t, q))
    {
      PutEffect(t, p, Text(s), q);
      if IsPrefix(p, q) {
        PrefixSplit(p, q);
        AtConcat(t, p, q[|p|..]);
        if q[|p|..] == [] {
          assert q == p;
        }
      }
    }
    PutEffect(t, p, Text(s), p);
    assert p[|p|..] == [];
  }

  /** Two trees that agree on which paths exist and on what every path sees
      are equal. */
  lemma {:induction false} InfoExtensionality(a: Node, b: Node)
    requires forall q :: Valid(a, q) <==> Valid(b, q)
    requires forall q :: Valid(a, q) ==> InfoOf(At(a, q)) == InfoOf(At(b, q))
    ensures a == b
    decreases a
  {
    assert InfoOf(At(a, [])) == InfoOf(At(b, []));
    if a.Element? {
      assert b.Element? && |a.children| == |b.children|;
      forall i | 0 <= i < |a.children|
        ensures a.children[i] == b.children[i]
      {
        forall q
          ensures Valid(a.children[i], q) <==> Valid(b.children[i], q)
          ensures Valid(a.children[i], q) ==> InfoOf(At(a.children[i], q)) == InfoOf(At(b.children[i], q))
        {
          assert ([i] + q)[0] == i && ([i] + q)[1..] == q;
          assert Valid(a, [i] + q) <==> Valid(a.children[i], q);
          assert Valid(b, [i] + q) <==> Valid(b.children[i], q);
        }
        InfoExtensionality(a.children[i], b.children[i]);
      }
    }
  }

  /** Every element of `r` is an element of `t`, with the same name: no
      element was added or renamed. */
  ghost predicate Kept(t: Node, r: Node) {
    forall q :: IsElem(r, q) ==> IsElem(t, q) && At(r, q).name == At(t, q).name
  }

  /** Two trees whose elements at `p` have the same children agree
      strictly below `p`. */
  lemma SameChildrenAt(t: Node, u: Node, p: Path)
    requires IsElem(t, p) && IsElem(u, p) && At(t, p).children == At(u, p).children
    ensures forall q :: IsAncestor(p, q) ==> (Valid(t, q) <==> Valid(u, q)) && (Valid(t, q) ==> At(t, q) == At(u, q))
  {
    forall q | IsAncestor(p, q)
      ensures (Valid(t, q) <==> Valid(u, q)) && (Valid(t, q) ==> At(t, q) == At(u, q))
    {
      PrefixSplit(p, q);
      AtConcat(t, p, q[|p|..]);
      AtConcat(u, p, q[|p|..]);
      SameChildrenBelow(At(t, p), At(u, p), q[|p|..]);
    }
  }

  /** Writing back what is there changes nothing. */
  lemma {:induction false} PutSame(t: Node, p: Path)
    requires Valid(t, p)
    ensures Put(t, p, At(t, p)) == t
    decreases |p|
  {
    if p != [] {
      PutSame(t.children[p[0]], p[1..]);
    }
  }

  /** Writing the same place twice leaves only the second write. */
  lemma {:induction false} PutTwice(t: Node, p: Path, a: Node, b: Node)
    requires Valid(t, p)
    ensures Valid(Put(t, p, a), p) && Put(Put(t, p, a), p, b) == Put(t, p, b)
    decreases |p|
  {
    if p != [] {
      PutTwice(t.children[p[0]], p[1..], a, b);
    }
  }

  /** Replacing an element by one with the same name whose children are
      either the old children or text nodes only: elements below keep
      their place or disappear, and nothing outside the replaced node moves. */
  lemma PutLocal(t: Node, p: Path, n: Node)
    requires IsElem(t, p) && n.Element? && n.name == At(t, p).name
    requires n.children == At(t, p).children || forall c :: c in n.children ==> c.Text?
    ensures Kept(t, Put(t, p, n))
    ensures forall q :: IsElem(Put(t, p, n), q) && q != p ==> At(Put(t, p, n), q).attrs == At(t, q).attrs
    ensures forall q :: Valid(t, q) && !IsPrefix(p, q) ==>
      Valid(Put(t, p, n), q) && InfoOf(At(Put(t, p, n), q)) == InfoOf(At(t, q))
    ensures forall q :: Valid(t, q) && !IsPrefix(p, q) && !IsPrefix(q, p) ==>
      Valid(Put(t, p, n), q) && At(Put(t, p, n), q) == At(t, q)
    ensures IsElem(Put(t, p, n), p) && At(Put(t, p, n), p) == n
  {
    var r := Put(t, p, n);
    forall q
      ensures IsElem(r, q) ==> IsElem(t, q) && At(r, q).name == At(t, q).name
      ensures IsElem(r, q) && q != p ==> At(r, q).attrs == At(t, q).attrs
      ensures Valid(t, q) && !IsPrefix(p, q) ==> Valid(r, q) && InfoOf(At(r, q)) == InfoOf(At(t, q))
      ensures Valid(t, q) && !IsPrefix(p, q) && !IsPrefix(q, p) ==> Valid(r, q) && At(r, q) == At(t, q)
    {
      PutEffect(t, p, n, q);
      if IsPrefix(p, q) {
        var rel := q[|p|..];
        PrefixSplit(p, q);
        AtConcat(t, p, rel);
        if rel == [] {
          assert q == p;
        } else if n.children == At(t, p).children {
          SameChildrenBelow(n, At(t, p), rel);
        } else {
          NoElementBelowTexts(n, rel);
        }
      } else if !IsPrefix(q, p) {
      } else if Valid(t, q) {
        assert IsAncestor(q, p);
      }
    }
    PutEffect(t, p, n, p);
    assert p[|p|..] == [];
  }

  /** The DOM document the scripts mutate in place. */
  class Document {
    var root: Node

    constructor (root: Node)
      ensures this.root == root
    {
      this.root := root;
    }

    /** `element.setAttribute(key, value)` */
    method SetAttribute(p: Path, key: string, value: string)
      requires IsElem(root, p)
      modifies this
      ensures root == WithAttr(old(root), p, key, value)
    {
      root := WithAttr(root, p, key, value);
    }

    /** `element.textContent = s` */
    method SetTextContent(p: Path, s: string)
      requires IsElem(root, p)
      modifies this
      ensures root == WithText(old(root), p, s)
    {
      root := WithText(root, p, s);
    }

    /** `textNode.data = s` */
    method SetData(p: Path, s: string)
      requires Valid(root, p) && At(root, p).Text?
      modifies this
      ensures root == WithData(old(root), p, s)
    {
      root := WithData(root, p, s);
    }
  }
}
