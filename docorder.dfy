// Document order and the XPath selections the scripts evaluate. `Elems`
// lists the paths of all elements in pre-order (depth first, parent before
// children, children left to right), which is the order in which XPath
// returns the nodes of `//x` and `.//x`; `Before` is that order on paths.
module DocOrder {
  import opened Wrappers
  import opened Tree
  import opened Decimal

  /** `p` comes before `q` in document order: an ancestor precedes its
      descendants, and an earlier sibling's subtree precedes a later one's. */
  predicate Before(p: Path, q: Path)
    decreases |p|
  {
    q != [] && (p == [] || p[0] < q[0] || (p[0] == q[0] && Before(p[1..], q[1..])))
  }

  lemma {:induction false} BeforeIrreflexive(p: Path)
    ensures !Before(p, p)
    decreases |p|
  {
    if p != [] {
      BeforeIrreflexive(p[1..]);
    }
  }

  lemma {:induction false} BeforeTransitive(a: Path, b: Path, c: Path)
    requires Before(a, b) && Before(b, c)
    ensures Before(a, c)
    decreases |a|
  {
    if a != [] && a[0] == b[0] && b[0] == c[0] {
      BeforeTransitive(a[1..], b[1..], c[1..]);
    }
  }

  lemma BeforeAsymmetric(a: Path, b: Path)
    requires Before(a, b)
    ensures !Before(b, a)
  {
    if Before(b, a) {
      BeforeTransitive(a, b, a);
      BeforeIrreflexive(a);
    }
  }

  lemma {:induction false} BeforeTotal(a: Path, b: Path)
    requires a != b
    ensures Before(a, b) || Before(b, a)
    decreases |a|
  {
    if a != [] && b != [] && a[0] == b[0] {
      assert a == [a[0]] + a[1..] && b == [b[0]] + b[1..];
      BeforeTotal(a[1..], b[1..]);
    }
  }

  /** An ancestor comes before each of its descendants. */
  lemma {:induction false} AncestorBefore(a: Path, b: Path)
    requires IsAncestor(a, b)
    ensures Before(a, b)
    decreases |a|
  {
    if a != [] {
      assert a[0] == b[..|a|][0] == b[0];
      assert b[1..][..|a| - 1] == b[..|a|][1..] == a[1..];
      AncestorBefore(a[1..], b[1..]);
    }
  }

  lemma BeforeCons(i: nat, a: Path, b: Path)
    ensures Before([i] + a, [i] + b) <==> Before(a, b)
  {
    assert ([i] + a)[1..] == a && ([i] + b)[1..] == b;
  }

  /** Strictly increasing in document order (hence without repetitions). */
  predicate Sorted(ps: seq<Path>) {
    forall i, j :: 0 <= i < j < |ps| ==> Before(ps[i], ps[j])
  }

  lemma SortedDistinct(ps: seq<Path>, i: nat, j: nat)
    requires Sorted(ps) && i < |ps| && j < |ps| && ps[i] == ps[j]
    ensures i == j
  {
    if i < j || j < i {
      BeforeIrreflexive(ps[i]);
    }
  }

  lemma SortedDistinctAt(ps: seq<Path>, i: nat, j: nat)
    requires Sorted(ps) && i < |ps| && j < |ps|
    ensures i != j ==> ps[i] != ps[j]
  {
    BeforeIrreflexive(ps[i]);
  }

  /** In a list in document order an ancestor comes before its
      descendants. */
  lemma SortedAncestorIndex(ps: seq<Path>, a: nat, b: nat)
    requires Sorted(ps) && a < |ps| && b < |ps| && IsAncestor(ps[a], ps[b])
    ensures a < b
  {
    AncestorBefore(ps[a], ps[b]);
    BeforeAsymmetric(ps[a], ps[b]);
  }

  /** No path of `ps` is at or below another. */
  ghost predicate Apart(ps: seq<Path>) {
    forall a, b :: 0 <= a < |ps| && 0 <= b < |ps| && a != b ==> !IsPrefix(ps[a], ps[b])
  }

  /** Whatever lies in the subtree of one path of an apart list is apart
      from every other path of the list. */
  lemma ApartFromOthers(ps: seq<Path>, j: nat, i: nat, q: Path)
    requires Apart(ps) && j < |ps| && i < |ps| && i != j && IsPrefix(ps[j], q)
    ensures !IsPrefix(ps[i], q) && !IsPrefix(q, ps[i])
  {
    assert !IsPrefix(ps[j], ps[i]) && !IsPrefix(ps[i], ps[j]);
    ApartBelow(ps[j], q, ps[i]);
  }

  /** A sorted list none of whose paths lies below another is apart. */
  lemma SortedApart(ps: seq<Path>)
    requires Sorted(ps)
    requires forall a, b :: 0 <= a < |ps| && 0 <= b < |ps| ==> !IsAncestor(ps[a], ps[b])
    ensures Apart(ps)
  {
    forall a, b | 0 <= a < |ps| && 0 <= b < |ps| && a != b
      ensures !IsPrefix(ps[a], ps[b])
    {
      SortedDistinctAt(ps, a, b);
      PrefixCases(ps[a], ps[b]);
    }
  }

  lemma SortedConcat(a: seq<Path>, b: seq<Path>)
    requires Sorted(a) && Sorted(b)
    requires forall x, y :: x in a && y in b ==> Before(x, y)
    ensures Sorted(a + b)
  {
    forall i, j | 0 <= i < j < |a + b|
      ensures Before((a + b)[i], (a + b)[j])
    {
      if j < |a| {
      } else if i >= |a| {
        assert (a + b)[i] == b[i - |a|] && (a + b)[j] == b[j - |a|];
      } else {
        assert (a + b)[i] in a && (a + b)[j] in b;
      }
    }
  }

  /** Two sorted lists with the same members are equal. */
  lemma {:induction false} SortedUnique(a: seq<Path>, b: seq<Path>)
    requires Sorted(a) && Sorted(b)
    requires forall x :: x in a <==> x in b
    ensures a == b
    decreases |a|
  {
    if a != [] {
      assert a[0] in b;
      assert b != [] && b[0] in a;
      var i :| 0 <= i < |a| && a[i] == b[0];
      var j :| 0 <= j < |b| && b[j] == a[0];
      if i != 0 {
        assert Before(a[0], b[0]);
        if j != 0 {
          assert Before(b[0], a[0]);
          BeforeAsymmetric(a[0], b[0]);
        } else {
          BeforeIrreflexive(a[0]);
        }
      }
      assert a[0] == b[0];
      forall x
        ensures x in a[1..] <==> x in b[1..]
      {
        if x in a[1..] {
          var k :| 0 <= k < |a| - 1 && a[1..][k] == x;
          assert a[k + 1] == x;
          if x == a[0] {
            SortedDistinct(a, 0, k + 1);
          }
          assert x in b && x != b[0];
        }
        if x in b[1..] {
          var k :| 0 <= k < |b| - 1 && b[1..][k] == x;
          assert b[k + 1] == x;
          if x == b[0] {
            SortedDistinct(b, 0, k + 1);
          }
          assert x in a && x != a[0];
        }
      }
      SortedUnique(a[1..], b[1..]);
      assert a == [a[0]] + a[1..] && b == [b[0]] + b[1..];
    } else {
      FirstIsMember(b);
    }
  }

  lemma FirstIsMember(b: seq<Path>)
    ensures b == [] || b[0] in b
  {
  }

  /** The element paths of `t` in document order. */
  function Elems(t: Node): seq<Path>
    decreases t
  {
    match t
    case Text(_) => []
    case Element(_, _, cs) => [[]] + ChildElems(cs, 0)
  }

  function ChildElems(cs: seq<Node>, i: nat): seq<Path>
    requires i <= |cs|
    decreases cs, |cs| - i
  {
    if i == |cs| then [] else Under(i, Elems(cs[i])) + ChildElems(cs, i + 1)
  }

  /** The paths `ps`, taken relative to child `i`. */
  function Under(i: nat, ps: seq<Path>): (r: seq<Path>)
    ensures |r| == |ps|
    ensures forall q :: q in r <==> |q| > 0 && q[0] == i && q[1..] in ps
    ensures Sorted(ps) ==> Sorted(r)
  {
    var r := seq(|ps|, j requires 0 <= j < |ps| => [i] + ps[j]);
    UnderMembers(i, ps, r);
    r
  }

  lemma UnderMembers(i: nat, ps: seq<Path>, r: seq<Path>)
    requires |r| == |ps| && forall j :: 0 <= j < |ps| ==> r[j] == [i] + ps[j]
    ensures forall q :: q in r <==> |q| > 0 && q[0] == i && q[1..] in ps
    ensures Sorted(ps) ==> Sorted(r)
  {
    forall q
      ensures q in r <==> |q| > 0 && q[0] == i && q[1..] in ps
    {
      if q in r {
        var j :| 0 <= j < |r| && r[j] == q;
        assert q[1..] == ps[j];
      }
      if |q| > 0 && q[0] == i && q[1..] in ps {
        var j :| 0 <= j < |ps| && ps[j] == q[1..];
        assert q == [i] + q[1..] == r[j];
      }
    }
    if Sorted(ps) {
      forall a, b | 0 <= a < b < |r|
        ensures Before(r[a], r[b])
      {
        BeforeCons(i, ps[a], ps[b]);
      }
    }
  }

  lemma {:induction false} ChildElemsMembers(cs: seq<Node>, i: nat)
    requires i <= |cs|
    ensures forall q :: q in ChildElems(cs, i) <==> |q| > 0 && i <= q[0] < |cs| && q[1..] in Elems(cs[q[0]])
    decreases |cs| - i
  {
    if i < |cs| {
      ChildElemsMembers(cs, i + 1);
    }
  }

  lemma {:induction false} ElemsMembers(t: Node)
    ensures forall q :: q in Elems(t) <==> IsElem(t, q)
    decreases t
  {
    if t.Element? {
      var cs := t.children;
      forall k | 0 <= k < |cs|
        ensures forall q :: q in Elems(cs[k]) <==> IsElem(cs[k], q)
      {
        ElemsMembers(cs[k]);
      }
      ChildElemsMembers(cs, 0);
    }
  }

  lemma {:induction false} ChildElemsSorted(cs: seq<Node>, i: nat)
    requires i <= |cs|
    requires forall k :: i <= k < |cs| ==> Sorted(Elems(cs[k]))
    ensures Sorted(ChildElems(cs, i))
    decreases |cs| - i
  {
    if i < |cs| {
      ChildElemsSorted(cs, i + 1);
      ChildElemsMembers(cs, i + 1);
      forall x, y | x in Under(i, Elems(cs[i])) && y in ChildElems(cs, i + 1)
        ensures Before(x, y)
      {
      }
      SortedConcat(Under(i, Elems(cs[i])), ChildElems(cs, i + 1));
    }
  }

  lemma {:induction false} ElemsSorted(t: Node)
    ensures Sorted(Elems(t))
    decreases t
  {
    if t.Element? {
      var cs := t.children;
      forall k | 0 <= k < |cs|
        ensures Sorted(Elems(cs[k]))
      {
        ElemsSorted(cs[k]);
      }
      ChildElemsSorted(cs, 0);
      ChildElemsMembers(cs, 0);
      SortedConcat([[]], ChildElems(cs, 0));
    }
  }

  /** XPath's `contains(s, fragment)`. */
  predicate Contains(s: string, fragment: string) {
    exists i: nat :: i <= |s| && OccursAt(s, fragment, i)
  }

  predicate OccursAt(s: string, fragment: string, i: nat) {
    i + |fragment| <= |s| && s[i..i + |fragment|] == fragment
  }

  /** The three location paths the scripts evaluate. */
  datatype Query =
    | Tag(name: string)                           // //name
    | Descendant(anc: Path, name: string)         // .//name, from the element at anc
    | TagClassContains(name: string, fragment: string)  // //name[contains(@class, fragment)]

  predicate Matches(t: Node, q: Path, query: Query) {
    HasName(t, q, query.name) &&
    match query
    case Tag(_) => true
    case Descendant(anc, _) => IsAncestor(anc, q)
    case TagClassContains(_, fragment) =>
      "class" in At(t, q).attrs && Contains(At(t, q).attrs["class"], fragment)
  }

  function Filter(t: Node, ps: seq<Path>, query: Query): (r: seq<Path>)
    ensures forall q :: q in r <==> q in ps && Matches(t, q, query)
    ensures Sorted(ps) ==> Sorted(r)
    decreases |ps|
  {
    if ps == [] then []
    else
      var rest := Filter(t, ps[1..], query);
      assert Sorted(ps) ==> forall y :: y in rest ==> Before(ps[0], y);
      (if Matches(t, ps[0], query) then [ps[0]] else []) + rest
  }

  /** The node-set `query` selects, in document order. */
  function Select(t: Node, query: Query): (r: seq<Path>)
    ensures forall q :: q in r <==> Matches(t, q, query)
    ensures forall i :: 0 <= i < |r| ==> Matches(t, r[i], query) && HasName(t, r[i], query.name)
    ensures Sorted(r)
  {
    ElemsMembers(t);
    ElemsSorted(t);
    Filter(t, Elems(t), query)
  }

  /** A selection depends only on which paths match. */
  lemma SelectSame(t: Node, u: Node, query: Query)
    requires forall q :: Matches(t, q, query) <==> Matches(u, q, query)
    ensures Select(t, query) == Select(u, query)
  {
    SortedUnique(Select(t, query), Select(u, query));
  }

  /** A rewrite that adds and renames no element and keeps every element
      named `name` selects the same `//name`. */
  lemma SelectTagKept(t: Node, u: Node, name: string)
    requires Kept(t, u)
    requires forall j :: 0 <= j < |Select(t, Tag(name))| ==> IsElem(u, Select(t, Tag(name))[j])
    ensures Select(u, Tag(name)) == Select(t, Tag(name))
  {
    var S := Select(t, Tag(name));
    forall q
      ensures Matches(u, q, Tag(name)) <==> Matches(t, q, Tag(name))
    {
      if Matches(t, q, Tag(name)) {
        assert q in S;
        var j :| 0 <= j < |S| && S[j] == q;
        assert IsElem(u, S[j]);
      }
    }
    SelectSame(u, t, Tag(name));
  }

  /** The `id` attributes of the elements at `ps`, in that order. */
  function IdsOf(t: Node, ps: seq<Path>): (ids: seq<Option<string>>)
    requires forall i :: 0 <= i < |ps| ==> IsElem(t, ps[i])
    ensures |ids| == |ps|
  {
    seq(|ps|, i requires 0 <= i < |ps| && IsElem(t, ps[i]) => GetAttribute(At(t, ps[i]), "id"))
  }

  /** The ids "1", "2", ..., String(n). */
  function Numbering(n: nat): (ids: seq<Option<string>>)
    ensures |ids| == n
  {
    seq(n, i requires 0 <= i => Some(NatToString(i + 1)))
  }

  /** Elements whose ids read String(1), String(2), ... carry the numbering. */
  lemma IdsNumbered(t: Node, ps: seq<Path>)
    requires forall i :: 0 <= i < |ps| ==> IsElem(t, ps[i]) && GetAttribute(At(t, ps[i]), "id") == Some(NatToString(i + 1))
    ensures IdsOf(t, ps) == Numbering(|ps|)
  {
    forall i | 0 <= i < |ps|
      ensures IdsOf(t, ps)[i] == Numbering(|ps|)[i]
    {
    }
  }

  /** No id repeats in the numbering. */
  lemma NumberingDistinct(n: nat, a: nat, b: nat)
    requires a < n && b < n && a != b
    ensures Numbering(n)[a] != Numbering(n)[b]
  {
    if NatToString(a + 1) == NatToString(b + 1) {
      NatToStringInjective(a + 1, b + 1);
    }
  }
}
