// parse-book.js: give every <para> of the book, in document order, the id
// "1", "2", ... . The loop is a method on the Document, specified by the
// fold `NumberParas` of the tree it starts from.
module ParseBook {
  import opened Wrappers
  import opened Decimal
  import opened Tree
  import opened DocOrder

  /** `//para` */
  const ParaQuery := Tag("para")

  /** The tree after the first `i` iterations of `paras.forEach`: the `j`-th
      para (0-based) has id String(j+1). */
  function NumberParas(t: Node, ps: seq<Path>, i: nat): Node
    requires i <= |ps|
    decreases i
  {
    if i == 0 then t
    else
      var u := NumberParas(t, ps, i - 1);
      if IsElem(u, ps[i - 1]) then WithAttr(u, ps[i - 1], "id", NatToString(i)) else u
  }

  /** Setting the ids detaches nothing: every path keeps its node, only the
      listed elements change, and each of them only in its `id`. */
  lemma {:induction false} NumberParasEffect(t: Node, ps: seq<Path>, i: nat)
    requires i <= |ps| && forall a, b :: 0 <= a < b < |ps| ==> ps[a] != ps[b]
    ensures forall q :: Valid(NumberParas(t, ps, i), q) <==> Valid(t, q)
    ensures forall q :: Valid(t, q) && (forall j :: 0 <= j < i ==> q != ps[j]) ==>
      InfoOf(At(NumberParas(t, ps, i), q)) == InfoOf(At(t, q))
    ensures forall j :: 0 <= j < i && IsElem(t, ps[j]) ==>
      IsElem(NumberParas(t, ps, i), ps[j]) &&
      InfoOf(At(NumberParas(t, ps, i), ps[j])) == InfoOf(At(t, ps[j]).(attrs := At(t, ps[j]).attrs["id" := NatToString(j + 1)]))
    decreases i
  {
    if i > 0 {
      NumberParasEffect(t, ps, i - 1);
      var u := NumberParas(t, ps, i - 1);
      var p := ps[i - 1];
      if Valid(t, p) {
        assert InfoOf(At(u, p)) == InfoOf(At(t, p));
      }
    }
  }

  /** The script: `paras.forEach((para, index) => para.setAttribute('id', ...))`. */
  method AssignParaIds(doc: Document) returns (paras: seq<Path>)
    modifies doc
    ensures paras == Select(old(doc.root), ParaQuery)
    ensures doc.root == NumberParas(old(doc.root), paras, |paras|)
    ensures forall j :: 0 <= j < |paras| ==>
      IsElem(doc.root, paras[j]) && GetAttribute(At(doc.root, paras[j]), "id") == Some(NatToString(j + 1))
  {
    ghost var t := doc.root;
    paras := Select(doc.root, ParaQuery);
    for i := 0 to |paras|
      invariant doc.root == NumberParas(t, paras, i)
      invariant IdsSoFar(doc.root, paras, i)
      invariant forall j :: i <= j < |paras| ==> IsElem(doc.root, paras[j])
    {
      SetIdStep(doc.root, paras, i);
      doc.SetAttribute(paras[i], "id", NatToString(i + 1));
    }
  }

  /** The first `i` paras carry their numbers. */
  ghost predicate IdsSoFar(t: Node, ps: seq<Path>, i: nat)
    requires i <= |ps|
  {
    forall j :: 0 <= j < i ==> IsElem(t, ps[j]) && GetAttribute(At(t, ps[j]), "id") == Some(NatToString(j + 1))
  }

  /** One iteration of the loop keeps its invariant. */
  lemma SetIdStep(u: Node, ps: seq<Path>, i: nat)
    requires Sorted(ps) && i < |ps| && IdsSoFar(u, ps, i)
    requires forall j :: i <= j < |ps| ==> IsElem(u, ps[j])
    ensures IdsSoFar(WithAttr(u, ps[i], "id", NatToString(i + 1)), ps, i + 1)
    ensures forall j :: i + 1 <= j < |ps| ==> IsElem(WithAttr(u, ps[i], "id", NatToString(i + 1)), ps[j])
  {
    var r := WithAttr(u, ps[i], "id", NatToString(i + 1));
    forall j | i < j < |ps|
      ensures IsElem(r, ps[j])
    {
      SortedDistinctAt(ps, i, j);
      assert InfoOf(At(r, ps[j])) == InfoOf(At(u, ps[j]));
    }
    forall j | 0 <= j < i
      ensures IsElem(r, ps[j]) && GetAttribute(At(r, ps[j]), "id") == Some(NatToString(j + 1))
    {
      SortedDistinctAt(ps, i, j);
      assert InfoOf(At(r, ps[j])) == InfoOf(At(u, ps[j]));
    }
  }

  // ---------------------------------------------------------------------------
  // What the loop leaves.

  /** The `k`-th para in document order (0-based) has id String(k+1), and
      apart from that id it is what it was. */
  lemma ParasNumbered(t0: Node)
    ensures var P := Select(t0, ParaQuery);
      var t1 := NumberParas(t0, P, |P|);
      forall k :: 0 <= k < |P| ==>
        IsElem(t1, P[k]) && GetAttribute(At(t1, P[k]), "id") == Some(NatToString(k + 1)) &&
        InfoOf(At(t1, P[k])) == InfoOf(At(t0, P[k]).(attrs := At(t0, P[k]).attrs["id" := NatToString(k + 1)]))
  {
    var P := Select(t0, ParaQuery);
    forall a, b | 0 <= a < b < |P|
      ensures P[a] != P[b]
    {
      SortedDistinctAt(P, a, b);
    }
    NumberParasEffect(t0, P, |P|);
  }

  /** Nothing but the paras' ids changes: no node is added, removed, moved
      or renamed, and no other attribute or text differs. */
  lemma OnlyParaIdsChange(t0: Node)
    ensures var P := Select(t0, ParaQuery);
      var t1 := NumberParas(t0, P, |P|);
      (forall q :: Valid(t1, q) <==> Valid(t0, q)) &&
      (forall q :: Valid(t0, q) && q !in P ==> InfoOf(At(t1, q)) == InfoOf(At(t0, q)))
  {
    var P := Select(t0, ParaQuery);
    forall a, b | 0 <= a < b < |P|
      ensures P[a] != P[b]
    {
      SortedDistinctAt(P, a, b);
    }
    NumberParasEffect(t0, P, |P|);
  }

  /** The paras afterwards are the same elements in the same order, and
      their ids read exactly "1", ..., "N". */
  lemma ParaIdsAreNumbering(t0: Node)
    ensures var P := Select(t0, ParaQuery);
      var t1 := NumberParas(t0, P, |P|);
      Select(t1, ParaQuery) == P && IdsOf(t1, P) == Numbering(|P|)
  {
    var P := Select(t0, ParaQuery);
    var t1 := NumberParas(t0, P, |P|);
    ParasNumbered(t0);
    OnlyParaIdsChange(t0);
    forall q
      ensures Matches(t1, q, ParaQuery) <==> Matches(t0, q, ParaQuery)
    {
      if Valid(t0, q) && q !in P {
        assert InfoOf(At(t1, q)) == InfoOf(At(t0, q));
      }
    }
    SelectSame(t1, t0, ParaQuery);
    IdsNumbered(t1, P);
  }

  /** No two paras share an id afterwards. */
  lemma ParaIdsDistinct(t0: Node)
    ensures var P := Select(t0, ParaQuery);
      var t1 := NumberParas(t0, P, |P|);
      (forall k :: 0 <= k < |P| ==> IsElem(t1, P[k])) &&
      forall a, b :: 0 <= a < |P| && 0 <= b < |P| && a != b ==> IdsOf(t1, P)[a] != IdsOf(t1, P)[b]
  {
    var P := Select(t0, ParaQuery);
    ParaIdsAreNumbering(t0);
    forall a, b | 0 <= a < |P| && 0 <= b < |P| && a != b
      ensures Numbering(|P|)[a] != Numbering(|P|)[b]
    {
      NumberingDistinct(|P|, a, b);
    }
  }

  /** The elements at `x` and `y` both carry a numeric id, and that of `x`
      is the smaller number. */
  ghost predicate SmallerId(t: Node, x: Path, y: Path) {
    IsElem(t, x) && IsElem(t, y) &&
    GetAttribute(At(t, x), "id").Some? && GetAttribute(At(t, y), "id").Some? &&
    AllDigits(GetAttribute(At(t, x), "id").value) && AllDigits(GetAttribute(At(t, y), "id").value) &&
    Value(GetAttribute(At(t, x), "id").value) < Value(GetAttribute(At(t, y), "id").value)
  }

  /** A para nested inside another para gets the larger number. */
  lemma NestedParaLater(t0: Node)
    ensures var P := Select(t0, ParaQuery);
      var t1 := NumberParas(t0, P, |P|);
      forall a, b :: 0 <= a < |P| && 0 <= b < |P| && IsAncestor(P[a], P[b]) ==> SmallerId(t1, P[a], P[b])
  {
    var P := Select(t0, ParaQuery);
    var t1 := NumberParas(t0, P, |P|);
    ParasNumbered(t0);
    forall a, b | 0 <= a < |P| && 0 <= b < |P| && IsAncestor(P[a], P[b])
      ensures SmallerId(t1, P[a], P[b])
    {
      SortedAncestorIndex(P, a, b);
      NumberedSmaller(t1, P[a], P[b], a, b);
    }
  }

  /** Ids String(a+1) and String(b+1) with a < b compare as numbers. */
  lemma NumberedSmaller(t: Node, x: Path, y: Path, a: nat, b: nat)
    requires IsElem(t, x) && GetAttribute(At(t, x), "id") == Some(NatToString(a + 1))
    requires IsElem(t, y) && GetAttribute(At(t, y), "id") == Some(NatToString(b + 1))
    requires a < b
    ensures SmallerId(t, x, y)
  {
    ValueOfNatToString(a + 1);
    ValueOfNatToString(b + 1);
  }

  /** Numbering a tree whose paras already carry their numbers changes
      nothing. */
  lemma NumberParasNumbered(t: Node, ps: seq<Path>)
    requires forall a, b :: 0 <= a < b < |ps| ==> ps[a] != ps[b]
    requires forall k :: 0 <= k < |ps| ==> IsElem(t, ps[k]) && GetAttribute(At(t, ps[k]), "id") == Some(NatToString(k + 1))
    ensures NumberParas(t, ps, |ps|) == t
  {
    NumberParasEffect(t, ps, |ps|);
    var r := NumberParas(t, ps, |ps|);
    forall q | Valid(r, q)
      ensures InfoOf(At(r, q)) == InfoOf(At(t, q))
    {
      if k :| 0 <= k < |ps| && q == ps[k] {
        var n := At(t, q);
        assert n.attrs["id" := NatToString(k + 1)] == n.attrs;
      }
    }
    InfoExtensionality(r, t);
  }

  /** The ids depend on position only: running the script on its own
      output changes nothing. */
  lemma ParaIdsTwice(t0: Node)
    ensures var P := Select(t0, ParaQuery);
      var t1 := NumberParas(t0, P, |P|);
      Select(t1, ParaQuery) == P && NumberParas(t1, Select(t1, ParaQuery), |P|) == t1
  {
    var P := Select(t0, ParaQuery);
    ParaIdsAreNumbering(t0);
    ParasNumbered(t0);
    forall a, b | 0 <= a < b < |P|
      ensures P[a] != P[b]
    {
      SortedDistinctAt(P, a, b);
    }
    NumberParasNumbered(NumberParas(t0, P, |P|), P);
  }
}
