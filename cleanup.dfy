// cleanup.js: renumber the footnotes of a book in document order, remap the
// anchors that point at them, and rewrite the labels inside them. Each pass
// is a method on the Document that does what the script does, step by step,
// and is specified by a function of the tree it starts from; the lemmas
// state what those functions leave in the tree.
module Cleanup {
  import opened Wrappers
  import opened Decimal
  import opened Tree
  import opened DocOrder
  import opened Labels

  /** `idMap`: old footnote id (null when the footnote had none) to its
      new number. */
  type IdMap = map<Option<string>, nat>

  // ---------------------------------------------------------------------------
  // The per-element rewrites.

  /** The two rewrites the passes apply to one element at a time: the
      label rewrite of updateLeadingNumber and the remap of one anchor. */
  datatype Edit =
    | LeadingNumber(newNum: nat)
    | FootnoteLink(idMap: IdMap)

  /** The number an anchor with this `href` is remapped to, or None when
      the second pass leaves it alone: no `href`, an empty one, one that does
      not start with `#f`, or an old id that `idMap` does not know. */
  function LinkTarget(href: Option<string>, idMap: IdMap): (r: Option<nat>)
    ensures r.Some? ==> r.value != 0 && r.value in idMap.Values
  {
    if href.None? || href.value == "" || !StartsWith(href.value, "#f") then None
    else
      var oldId := Some(href.value[2..]);
      if oldId in idMap && idMap[oldId] != 0 then Some(idMap[oldId]) else None
  }

  /** The element `n` after edit `e`. */
  function Edited(e: Edit, n: Node): (r: Node)
    requires n.Element?
    ensures r.Element? && r.name == n.name
    ensures r.children == n.children || forall c :: c in r.children ==> c.Text?
    ensures e.LeadingNumber? ==> r.attrs == n.attrs
  {
    match e
    case LeadingNumber(newNum) =>
      (match Relabel(TextContent(n), newNum)
       case Some(s) => n.(children := TextChildren(s))
       case None => n)
    case FootnoteLink(idMap) =>
      (match LinkTarget(GetAttribute(n, "href"), idMap)
       case Some(k) =>
         var num := NatToString(k);
         n.(attrs := n.attrs["href" := "#f" + num]["id" := "ref" + num],
            children := TextChildren("(" + num + ")"))
       case None => n)
  }

  /** The tree after edit `e` of the node at `p`; a path that no longer
      leads to an element belongs to a node an earlier rewrite detached, and
      what the script does to it is not visible in the document. */
  function EditAt(t: Node, p: Path, e: Edit): Node {
    if IsElem(t, p) then Put(t, p, Edited(e, At(t, p))) else t
  }

  /** The tree after editing `ps[0]`, ..., `ps[i-1]` in that order. */
  function EditEach(t: Node, ps: seq<Path>, i: nat, e: Edit): Node
    requires i <= |ps|
    decreases i
  {
    if i == 0 then t else EditAt(EditEach(t, ps, i - 1, e), ps[i - 1], e)
  }

  /** One edit, seen from every path. */
  lemma EditAtEffect(t: Node, p: Path, e: Edit)
    ensures Kept(t, EditAt(t, p, e))
    ensures forall q :: IsElem(EditAt(t, p, e), q) && IsElem(t, q) && (q != p || e.LeadingNumber?) ==>
      At(EditAt(t, p, e), q).attrs == At(t, q).attrs
    ensures forall q :: Valid(t, q) && !IsPrefix(p, q) ==>
      Valid(EditAt(t, p, e), q) && InfoOf(At(EditAt(t, p, e), q)) == InfoOf(At(t, q))
    ensures forall q :: Valid(t, q) && !IsPrefix(p, q) && !IsPrefix(q, p) ==>
      Valid(EditAt(t, p, e), q) && At(EditAt(t, p, e), q) == At(t, q)
    ensures IsElem(t, p) ==> IsElem(EditAt(t, p, e), p) && At(EditAt(t, p, e), p) == Edited(e, At(t, p))
  {
    if IsElem(t, p) {
      PutLocal(t, p, Edited(e, At(t, p)));
    }
  }

  /** A sequence of edits adds and renames no element, and only an anchor
      remap changes attributes, those of the edited anchors. */
  lemma {:induction false} EditEachKept(t: Node, ps: seq<Path>, i: nat, e: Edit)
    requires i <= |ps|
    ensures Kept(t, EditEach(t, ps, i, e))
    ensures forall q :: IsElem(EditEach(t, ps, i, e), q) && IsElem(t, q) && (e.LeadingNumber? || q !in ps[..i]) ==>
      At(EditEach(t, ps, i, e), q).attrs == At(t, q).attrs
    decreases i
  {
    if i > 0 {
      EditEachKept(t, ps, i - 1, e);
      EditAtEffect(EditEach(t, ps, i - 1, e), ps[i - 1], e);
      assert ps[..i] == ps[..i - 1] + [ps[i - 1]];
    }
  }

  /** A path apart from every edited one keeps its whole subtree. */
  lemma {:induction false} EditEachFrame(t: Node, ps: seq<Path>, i: nat, e: Edit, q: Path)
    requires i <= |ps| && Valid(t, q)
    requires forall j :: 0 <= j < i ==> !IsPrefix(ps[j], q) && !IsPrefix(q, ps[j])
    ensures Valid(EditEach(t, ps, i, e), q) && At(EditEach(t, ps, i, e), q) == At(t, q)
    decreases i
  {
    if i > 0 {
      EditEachFrame(t, ps, i - 1, e, q);
      EditAtEffect(EditEach(t, ps, i - 1, e), ps[i - 1], e);
    }
  }

  /** A path that is not at or below an edited one keeps what it sees. */
  lemma {:induction false} EditEachInfo(t: Node, ps: seq<Path>, i: nat, e: Edit, q: Path)
    requires i <= |ps| && Valid(t, q)
    requires forall j :: 0 <= j < i ==> !IsPrefix(ps[j], q)
    ensures Valid(EditEach(t, ps, i, e), q) && InfoOf(At(EditEach(t, ps, i, e), q)) == InfoOf(At(t, q))
    decreases i
  {
    if i > 0 {
      EditEachInfo(t, ps, i - 1, e, q);
      EditAtEffect(EditEach(t, ps, i - 1, e), ps[i - 1], e);
    }
  }

  /** When no edited path lies at or below another, each edited element
      ends up as the edit of its original. */
  lemma {:induction false} EditEachApartAt(t: Node, ps: seq<Path>, i: nat, e: Edit, j: nat)
    requires i <= |ps| && Apart(ps) && j < i && IsElem(t, ps[j])
    ensures IsElem(EditEach(t, ps, i, e), ps[j]) && At(EditEach(t, ps, i, e), ps[j]) == Edited(e, At(t, ps[j]))
    decreases i
  {
    var r := EditEach(t, ps, i - 1, e);
    if j == i - 1 {
      EditEachFrame(t, ps, i - 1, e, ps[j]);
      EditAtEffect(r, ps[j], e);
    } else {
      EditEachApartAt(t, ps, i - 1, e, j);
      EditAtEffect(r, ps[i - 1], e);
    }
  }

  // ---------------------------------------------------------------------------
  // The three passes, as functions of the tree.

  /** The body of the first pass for the footnote at `f`, the `k`-th one. */
  function RenumberFootnote(t: Node, f: Path, k: nat): Node {
    if IsElem(t, f) then
      var t' := WithAttr(t, f, "id", NatToString(k + 1));
      var ps := Select(t', Descendant(f, "p"));
      EditEach(t', ps, |ps|, LeadingNumber(k + 1))
    else t
  }

  /** The tree after the first `k` iterations of the first pass. */
  function RenumberFootnotes(t0: Node, fs: seq<Path>, k: nat): Node
    requires k <= |fs|
    decreases k
  {
    if k == 0 then t0 else RenumberFootnote(RenumberFootnotes(t0, fs, k - 1), fs[k - 1], k - 1)
  }

  /** `idMap` after the first `k` iterations: `Map.set` in order, so a later
      footnote with the same id wins. */
  function IdMapOf(ids: seq<Option<string>>, k: nat): (m: IdMap)
    requires k <= |ids|
    ensures forall key :: key in m ==> 1 <= m[key] <= k
    decreases k
  {
    if k == 0 then map[] else IdMapOf(ids, k - 1)[ids[k - 1] := k]
  }

  /** The anchors of the second pass. */
  const AnchorQuery := TagClassContains("a", "footnote-ref")

  /** `fn.firstChild` exists and is a text node. */
  predicate LeadsWithText(t: Node, f: Path) {
    IsElem(t, f) && |At(t, f).children| > 0 && At(t, f).children[0].Text?
  }

  /** The body of the third pass for the footnote at `f`, the `k`-th one. */
  function FixLeadingText(t: Node, f: Path, k: nat): Node {
    if LeadsWithText(t, f) then
      AtConcat(t, f, [0]);
      WithData(t, f + [0], ReplaceLeadingDigits(At(t, f).children[0].data, k + 1))
    else t
  }

  /** The tree after the first `k` iterations of the third pass. */
  function FixLeadingTexts(t: Node, fs: seq<Path>, k: nat): Node
    requires k <= |fs|
    decreases k
  {
    if k == 0 then t else FixLeadingText(FixLeadingTexts(t, fs, k - 1), fs[k - 1], k - 1)
  }

  // ---------------------------------------------------------------------------
  // One iteration of the first pass.

  /** The `<p>` elements below `f` are strictly below it. */
  lemma DescendantsBelow(t: Node, f: Path, name: string)
    ensures forall j :: 0 <= j < |Select(t, Descendant(f, name))| ==>
      IsAncestor(f, Select(t, Descendant(f, name))[j]) && HasName(t, Select(t, Descendant(f, name))[j], name)
  {
  }

  /** One iteration of the first pass adds, removes and renames nothing,
      and changes attributes only on the footnote itself. */
  lemma RenumberFootnoteKept(t: Node, f: Path, k: nat)
    ensures Kept(t, RenumberFootnote(t, f, k))
    ensures forall q :: IsElem(RenumberFootnote(t, f, k), q) && IsElem(t, q) && q != f ==>
      At(RenumberFootnote(t, f, k), q).attrs == At(t, q).attrs
  {
    if IsElem(t, f) {
      var t' := WithAttr(t, f, "id", NatToString(k + 1));
      var ps := Select(t', Descendant(f, "p"));
      var e := LeadingNumber(k + 1);
      var r := EditEach(t', ps, |ps|, e);
      EditEachKept(t', ps, |ps|, e);
      forall q | IsElem(r, q)
        ensures IsElem(t, q) && At(r, q).name == At(t, q).name
        ensures q != f ==> At(r, q).attrs == At(t, q).attrs
      {
        assert InfoOf(At(t', q)) == InfoOf(At(t, q)) || q == f;
      }
    }
  }

  /** Away from the footnote's subtree, one iteration changes nothing that a
      node shows. */
  lemma RenumberFootnoteInfo(t: Node, f: Path, k: nat, q: Path)
    requires Valid(t, q) && !IsPrefix(f, q)
    ensures Valid(RenumberFootnote(t, f, k), q) && InfoOf(At(RenumberFootnote(t, f, k), q)) == InfoOf(At(t, q))
  {
    if IsElem(t, f) {
      var t' := WithAttr(t, f, "id", NatToString(k + 1));
      var ps := Select(t', Descendant(f, "p"));
      DescendantsBelow(t', f, "p");
      forall j | 0 <= j < |ps|
        ensures !IsPrefix(ps[j], q)
      {
        PrefixTrans(f, ps[j], q);
      }
      EditEachInfo(t', ps, |ps|, LeadingNumber(k + 1), q);
    }
  }

  /** A subtree apart from the footnote stays as it is. */
  lemma RenumberFootnoteFrame(t: Node, f: Path, k: nat, q: Path)
    requires Valid(t, q) && !IsPrefix(f, q) && !IsPrefix(q, f)
    ensures Valid(RenumberFootnote(t, f, k), q) && At(RenumberFootnote(t, f, k), q) == At(t, q)
  {
    if IsElem(t, f) {
      var t' := WithAttr(t, f, "id", NatToString(k + 1));
      var ps := Select(t', Descendant(f, "p"));
      DescendantsBelow(t', f, "p");
      forall j | 0 <= j < |ps|
        ensures !IsPrefix(ps[j], q) && !IsPrefix(q, ps[j])
      {
        ApartBelow(f, ps[j], q);
      }
      EditEachFrame(t', ps, |ps|, LeadingNumber(k + 1), q);
    }
  }

  /** The footnote itself changes only in its id. */
  lemma RenumberFootnoteSelf(t: Node, f: Path, k: nat)
    requires IsElem(t, f)
    ensures IsElem(RenumberFootnote(t, f, k), f) &&
            InfoOf(At(RenumberFootnote(t, f, k), f)) == InfoOf(At(t, f).(attrs := At(t, f).attrs["id" := NatToString(k + 1)]))
  {
    var t' := WithAttr(t, f, "id", NatToString(k + 1));
    var ps := Select(t', Descendant(f, "p"));
    DescendantsBelow(t', f, "p");
    EditEachInfo(t', ps, |ps|, LeadingNumber(k + 1), f);
  }

  /** Two trees that agree strictly below `f` select the same `.//name` from it. */
  lemma SelectBelowSame(t: Node, u: Node, f: Path, name: string)
    requires forall q :: IsAncestor(f, q) ==> (Valid(t, q) <==> Valid(u, q)) && (Valid(t, q) ==> At(t, q) == At(u, q))
    ensures Select(t, Descendant(f, name)) == Select(u, Descendant(f, name))
  {
    SelectSame(t, u, Descendant(f, name));
  }

  /** When the footnote's `<p>` elements are apart, each ends up as
      updateLeadingNumber makes it. */
  lemma RenumberFootnoteParaAt(t: Node, f: Path, k: nat, P: Path)
    requires IsElem(t, f) && Apart(Select(t, Descendant(f, "p"))) && P in Select(t, Descendant(f, "p"))
    ensures IsElem(RenumberFootnote(t, f, k), P) && At(RenumberFootnote(t, f, k), P) == Edited(LeadingNumber(k + 1), At(t, P))
  {
    var t' := WithAttr(t, f, "id", NatToString(k + 1));
    assert At(t', f).children == At(t, f).children;
    SameChildrenAt(t, t', f);
    SelectBelowSame(t, t', f, "p");
    var ps := Select(t', Descendant(f, "p"));
    DescendantsBelow(t', f, "p");
    var j :| 0 <= j < |ps| && ps[j] == P;
    EditEachApartAt(t', ps, |ps|, LeadingNumber(k + 1), j);
  }

  // ---------------------------------------------------------------------------
  // The first pass, iteration by iteration.

  /** Iteration `k` leaves a path that is not at or below its footnote as
      it found it. */
  lemma RenumberStepInfo(t0: Node, fs: seq<Path>, k: nat, q: Path)
    requires 0 < k <= |fs| && Valid(RenumberFootnotes(t0, fs, k - 1), q) && !IsPrefix(fs[k - 1], q)
    ensures Valid(RenumberFootnotes(t0, fs, k), q) &&
      InfoOf(At(RenumberFootnotes(t0, fs, k), q)) == InfoOf(At(RenumberFootnotes(t0, fs, k - 1), q))
  {
    RenumberFootnoteInfo(RenumberFootnotes(t0, fs, k - 1), fs[k - 1], k - 1, q);
  }

  /** Iteration `k` leaves a subtree apart from its footnote as it found it. */
  lemma RenumberStepFrame(t0: Node, fs: seq<Path>, k: nat, q: Path)
    requires 0 < k <= |fs| && Valid(RenumberFootnotes(t0, fs, k - 1), q)
    requires !IsPrefix(fs[k - 1], q) && !IsPrefix(q, fs[k - 1])
    ensures Valid(RenumberFootnotes(t0, fs, k), q) &&
      At(RenumberFootnotes(t0, fs, k), q) == At(RenumberFootnotes(t0, fs, k - 1), q)
  {
    RenumberFootnoteFrame(RenumberFootnotes(t0, fs, k - 1), fs[k - 1], k - 1, q);
  }

  /** Iteration `k` leaves what lies in the subtree of an earlier footnote
      as it found it. */
  lemma RenumberStepEarlier(t0: Node, fs: seq<Path>, k: nat, j: nat, q: Path)
    requires 0 < k <= |fs| && Apart(fs) && j < k - 1 && IsPrefix(fs[j], q)
    requires Valid(RenumberFootnotes(t0, fs, k - 1), q)
    ensures Valid(RenumberFootnotes(t0, fs, k), q) &&
      At(RenumberFootnotes(t0, fs, k), q) == At(RenumberFootnotes(t0, fs, k - 1), q)
  {
    ApartFromOthers(fs, j, k - 1, q);
    RenumberStepFrame(t0, fs, k, q);
  }

  lemma {:induction false} RenumberKept(t0: Node, fs: seq<Path>, k: nat)
    requires k <= |fs|
    ensures Kept(t0, RenumberFootnotes(t0, fs, k))
    ensures forall q :: IsElem(RenumberFootnotes(t0, fs, k), q) && IsElem(t0, q) && q !in fs[..k] ==>
      At(RenumberFootnotes(t0, fs, k), q).attrs == At(t0, q).attrs
    decreases k
  {
    if k > 0 {
      RenumberKept(t0, fs, k - 1);
      RenumberFootnoteKept(RenumberFootnotes(t0, fs, k - 1), fs[k - 1], k - 1);
      assert fs[..k] == fs[..k - 1] + [fs[k - 1]];
    }
  }

  lemma {:induction false} RenumberInfo(t0: Node, fs: seq<Path>, k: nat, q: Path)
    requires k <= |fs| && Valid(t0, q)
    requires forall j :: 0 <= j < k ==> !IsPrefix(fs[j], q)
    ensures Valid(RenumberFootnotes(t0, fs, k), q) && InfoOf(At(RenumberFootnotes(t0, fs, k), q)) == InfoOf(At(t0, q))
    decreases k
  {
    if k > 0 {
      RenumberInfo(t0, fs, k - 1, q);
      RenumberStepInfo(t0, fs, k, q);
    }
  }

  lemma {:induction false} RenumberFrame(t0: Node, fs: seq<Path>, k: nat, q: Path)
    requires k <= |fs| && Valid(t0, q)
    requires forall j :: 0 <= j < k ==> !IsPrefix(fs[j], q) && !IsPrefix(q, fs[j])
    ensures Valid(RenumberFootnotes(t0, fs, k), q) && At(RenumberFootnotes(t0, fs, k), q) == At(t0, q)
    decreases k
  {
    if k > 0 {
      RenumberFrame(t0, fs, k - 1, q);
      RenumberStepFrame(t0, fs, k, q);
    }
  }

  /** After `k` iterations the `j`-th footnote (j < k) differs from the
      parsed one only in its id, String(j+1). */
  lemma {:induction false} RenumberIdAt(t0: Node, fs: seq<Path>, k: nat, j: nat)
    requires k <= |fs| && Apart(fs) && forall i :: 0 <= i < |fs| ==> IsElem(t0, fs[i])
    requires j < k
    ensures IsElem(t0, fs[j]) && IsElem(RenumberFootnotes(t0, fs, k), fs[j]) &&
      InfoOf(At(RenumberFootnotes(t0, fs, k), fs[j])) ==
        InfoOf(At(t0, fs[j]).(attrs := At(t0, fs[j]).attrs["id" := NatToString(j + 1)]))
    decreases k
  {
    var t := RenumberFootnotes(t0, fs, k - 1);
    if j == k - 1 {
      FootnoteUntouched(t0, fs, k - 1);
      RenumberFootnoteSelf(t, fs[j], j);
    } else {
      RenumberIdAt(t0, fs, k - 1, j);
      RenumberStepInfo(t0, fs, k, fs[j]);
    }
  }

  /** After `k` iterations each `<p>` of the `j`-th footnote (j < k) is as
      updateLeadingNumber(p, j+1) leaves it. */
  lemma {:induction false} RenumberParaAt(t0: Node, fs: seq<Path>, k: nat, j: nat, P: Path)
    requires k <= |fs| && Apart(fs) && forall i :: 0 <= i < |fs| ==> IsElem(t0, fs[i])
    requires j < k && Apart(Select(t0, Descendant(fs[j], "p"))) && P in Select(t0, Descendant(fs[j], "p"))
    ensures IsElem(RenumberFootnotes(t0, fs, k), P) &&
      At(RenumberFootnotes(t0, fs, k), P) == Edited(LeadingNumber(j + 1), At(t0, P))
    decreases k
  {
    if j == k - 1 {
      StepParaAt(t0, fs, j, P);
    } else {
      RenumberParaAt(t0, fs, k - 1, j, P);
      RenumberStepEarlier(t0, fs, k, j, P);
    }
  }

  /** What one iteration leaves strictly below the footnote and outside
      its `<p>` elements. */
  lemma RenumberFootnoteRest(t: Node, f: Path, k: nat, q: Path)
    requires IsElem(t, f) && IsAncestor(f, q) && Valid(t, q)
    requires forall P :: P in Select(t, Descendant(f, "p")) ==> !IsPrefix(P, q)
    ensures Valid(RenumberFootnote(t, f, k), q) && InfoOf(At(RenumberFootnote(t, f, k), q)) == InfoOf(At(t, q))
  {
    var t' := WithAttr(t, f, "id", NatToString(k + 1));
    assert At(t', f).children == At(t, f).children;
    SameChildrenAt(t, t', f);
    SelectBelowSame(t, t', f, "p");
    var ps := Select(t', Descendant(f, "p"));
    assert forall j :: 0 <= j < |ps| ==> ps[j] in ps;
    EditEachInfo(t', ps, |ps|, LeadingNumber(k + 1), q);
  }

  /** The iterations before the `k`-th leave the `k`-th footnote as parsed. */
  lemma FootnoteUntouched(t0: Node, fs: seq<Path>, k: nat)
    requires k < |fs| && Apart(fs) && Valid(t0, fs[k])
    ensures Valid(RenumberFootnotes(t0, fs, k), fs[k]) && At(RenumberFootnotes(t0, fs, k), fs[k]) == At(t0, fs[k])
  {
    forall i | 0 <= i < k
      ensures !IsPrefix(fs[i], fs[k]) && !IsPrefix(fs[k], fs[i])
    {
    }
    RenumberFrame(t0, fs, k, fs[k]);
  }

  /** The `k`-th iteration leaves each `<p>` of its footnote as
      updateLeadingNumber makes it from the parsed one. */
  lemma StepParaAt(t0: Node, fs: seq<Path>, k: nat, P: Path)
    requires k < |fs| && Apart(fs) && IsElem(t0, fs[k])
    requires Apart(Select(t0, Descendant(fs[k], "p"))) && P in Select(t0, Descendant(fs[k], "p"))
    ensures IsElem(RenumberFootnotes(t0, fs, k + 1), P) &&
      At(RenumberFootnotes(t0, fs, k + 1), P) == Edited(LeadingNumber(k + 1), At(t0, P))
  {
    var t := RenumberFootnotes(t0, fs, k);
    FootnoteUntouched(t0, fs, k);
    SameChildrenAt(t, t0, fs[k]);
    SelectBelowSame(t, t0, fs[k], "p");
    RenumberFootnoteParaAt(t, fs[k], k, P);
  }

  /** Likewise for what lies below the footnote outside its `<p>` elements. */
  lemma StepRest(t0: Node, fs: seq<Path>, k: nat, q: Path)
    requires k < |fs| && Apart(fs) && IsElem(t0, fs[k])
    requires IsAncestor(fs[k], q) && Valid(t0, q)
    requires forall P :: P in Select(t0, Descendant(fs[k], "p")) ==> !IsPrefix(P, q)
    ensures Valid(RenumberFootnotes(t0, fs, k + 1), q) &&
      InfoOf(At(RenumberFootnotes(t0, fs, k + 1), q)) == InfoOf(At(t0, q))
  {
    var t := RenumberFootnotes(t0, fs, k);
    FootnoteUntouched(t0, fs, k);
    SameChildrenAt(t, t0, fs[k]);
    SelectBelowSame(t, t0, fs[k], "p");
    RenumberFootnoteRest(t, fs[k], k, q);
  }

  lemma {:induction false} RenumberRest(t0: Node, fs: seq<Path>, k: nat, j: nat, q: Path)
    requires k <= |fs| && Apart(fs) && forall i :: 0 <= i < |fs| ==> IsElem(t0, fs[i])
    requires j < k && IsAncestor(fs[j], q) && Valid(t0, q)
    requires forall P :: P in Select(t0, Descendant(fs[j], "p")) ==> !IsPrefix(P, q)
    ensures Valid(RenumberFootnotes(t0, fs, k), q) && InfoOf(At(RenumberFootnotes(t0, fs, k), q)) == InfoOf(At(t0, q))
    decreases k
  {
    if j == k - 1 {
      StepRest(t0, fs, j, q);
    } else {
      RenumberRest(t0, fs, k - 1, j, q);
      RenumberStepEarlier(t0, fs, k, j, q);
    }
  }

  // ---------------------------------------------------------------------------
  // What the first pass leaves.

  /** No footnote lies inside another. */
  ghost predicate FootnotesApart(t: Node) {
    forall a, b :: HasName(t, a, "footnote") && HasName(t, b, "footnote") ==> !IsAncestor(a, b)
  }

  /** Inside a footnote no `<p>` holds another `<p>`. */
  ghost predicate FootnoteParasFlat(t: Node) {
    forall f, a, b :: HasName(t, f, "footnote") && IsAncestor(f, a) && HasName(t, a, "p") && IsAncestor(a, b) ==>
      !HasName(t, b, "p")
  }

  lemma FootnoteListApart(t0: Node)
    requires FootnotesApart(t0)
    ensures Apart(Select(t0, Tag("footnote")))
  {
    SortedApart(Select(t0, Tag("footnote")));
  }

  lemma FootnoteParasApart(t0: Node, f: Path)
    requires FootnoteParasFlat(t0) && HasName(t0, f, "footnote")
    ensures Apart(Select(t0, Descendant(f, "p")))
  {
    DescendantsBelow(t0, f, "p");
    SortedApart(Select(t0, Descendant(f, "p")));
  }

  /** The `k`-th footnote in document order gets id String(k+1); its name,
      its other attributes and its number of children stay. */
  lemma FootnotesNumbered(t0: Node)
    requires FootnotesApart(t0)
    ensures var F := Select(t0, Tag("footnote"));
      var t1 := RenumberFootnotes(t0, F, |F|);
      forall k :: 0 <= k < |F| ==>
        IsElem(t1, F[k]) && GetAttribute(At(t1, F[k]), "id") == Some(NatToString(k + 1)) &&
        InfoOf(At(t1, F[k])) == InfoOf(At(t0, F[k]).(attrs := At(t0, F[k]).attrs["id" := NatToString(k + 1)]))
  {
    var F := Select(t0, Tag("footnote"));
    FootnoteListApart(t0);
    forall k | 0 <= k < |F|
      ensures IsElem(RenumberFootnotes(t0, F, |F|), F[k]) &&
        InfoOf(At(RenumberFootnotes(t0, F, |F|), F[k])) == InfoOf(At(t0, F[k]).(attrs := At(t0, F[k]).attrs["id" := NatToString(k + 1)]))
    {
      RenumberIdAt(t0, F, |F|, k);
    }
  }

  /** The footnotes after the first pass are the same elements in the same
      order, and their ids read "1", ..., "N" with no gap. */
  lemma FootnoteIdsAreNumbering(t0: Node)
    requires FootnotesApart(t0)
    ensures var F := Select(t0, Tag("footnote"));
      var t1 := RenumberFootnotes(t0, F, |F|);
      Select(t1, Tag("footnote")) == F && IdsOf(t1, Select(t1, Tag("footnote"))) == Numbering(|F|)
  {
    var F := Select(t0, Tag("footnote"));
    var t1 := RenumberFootnotes(t0, F, |F|);
    FootnotesNumbered(t0);
    RenumberKept(t0, F, |F|);
    SelectTagKept(t0, t1, "footnote");
    IdsNumbered(t1, F);
  }

  /** Under footnotes that are apart and hold no nested `<p>`, every `<p>`
      of the `k`-th footnote is as updateLeadingNumber(p, k+1) leaves it:
      untouched when neither label pattern matches its text, and otherwise
      holding only the relabelled text. */
  lemma FootnoteParasRelabelled(t0: Node)
    requires FootnotesApart(t0) && FootnoteParasFlat(t0)
    ensures var F := Select(t0, Tag("footnote"));
      var t1 := RenumberFootnotes(t0, F, |F|);
      forall k, P :: 0 <= k < |F| && P in Select(t0, Descendant(F[k], "p")) ==> Relabelled(t0, t1, P, k + 1)
  {
    var F := Select(t0, Tag("footnote"));
    var t1 := RenumberFootnotes(t0, F, |F|);
    FootnoteListApart(t0);
    forall k, P | 0 <= k < |F| && P in Select(t0, Descendant(F[k], "p"))
      ensures Relabelled(t0, t1, P, k + 1)
    {
      FootnoteParasApart(t0, F[k]);
      RelabelledAt(t0, F, k, P);
    }
  }

  /** The element at `P`, in the tree before (`t0`) and after (`t1`), is as
      updateLeadingNumber(P, num) leaves it: untouched when neither label
      pattern matches its text, and otherwise holding only the relabelled
      text. */
  ghost predicate Relabelled(t0: Node, t1: Node, P: Path, num: nat) {
    IsElem(t0, P) && IsElem(t1, P) &&
    (Relabel(TextContent(At(t0, P)), num).None? ==> At(t1, P) == At(t0, P)) &&
    (Relabel(TextContent(At(t0, P)), num).Some? ==>
       At(t1, P) == At(t0, P).(children := TextChildren(Relabel(TextContent(At(t0, P)), num).value)) &&
       TextContent(At(t1, P)) == Relabel(TextContent(At(t0, P)), num).value)
  }

  /** updateLeadingNumber on one element: nothing when neither label
      pattern matches its text, otherwise its text becomes the relabelled
      one. */
  lemma LeadingNumberEdit(n: Node, num: nat)
    requires n.Element?
    ensures Relabel(TextContent(n), num).None? ==> Edited(LeadingNumber(num), n) == n
    ensures Relabel(TextContent(n), num).Some? ==>
      Edited(LeadingNumber(num), n) == n.(children := TextChildren(Relabel(TextContent(n), num).value)) &&
      TextContent(Edited(LeadingNumber(num), n)) == Relabel(TextContent(n), num).value
  {
    if Relabel(TextContent(n), num).Some? {
      TextContentOfTextChildren(Edited(LeadingNumber(num), n), Relabel(TextContent(n), num).value);
    }
  }

  /** The conclusion of FootnoteParasRelabelled for one `<p>`. */
  lemma RelabelledAt(t0: Node, F: seq<Path>, k: nat, P: Path)
    requires Apart(F) && (forall i :: 0 <= i < |F| ==> IsElem(t0, F[i])) && k < |F|
    requires Apart(Select(t0, Descendant(F[k], "p"))) && P in Select(t0, Descendant(F[k], "p"))
    ensures Relabelled(t0, RenumberFootnotes(t0, F, |F|), P, k + 1)
  {
    RenumberParaAt(t0, F, |F|, k, P);
    LeadingNumberEdit(At(t0, P), k + 1);
  }

  /** Strictly inside a footnote, whatever is not at or below one of its
      `<p>` elements keeps what it sees. */
  lemma FootnoteRestUnchanged(t0: Node)
    requires FootnotesApart(t0)
    ensures var F := Select(t0, Tag("footnote"));
      var t1 := RenumberFootnotes(t0, F, |F|);
      forall k, q :: 0 <= k < |F| && IsAncestor(F[k], q) && Valid(t0, q) &&
                     (forall P :: P in Select(t0, Descendant(F[k], "p")) ==> !IsPrefix(P, q)) ==>
        Valid(t1, q) && InfoOf(At(t1, q)) == InfoOf(At(t0, q))
  {
    var F := Select(t0, Tag("footnote"));
    FootnoteListApart(t0);
    forall k, q | 0 <= k < |F| && IsAncestor(F[k], q) && Valid(t0, q) &&
                  (forall P :: P in Select(t0, Descendant(F[k], "p")) ==> !IsPrefix(P, q))
      ensures Valid(RenumberFootnotes(t0, F, |F|), q) && InfoOf(At(RenumberFootnotes(t0, F, |F|), q)) == InfoOf(At(t0, q))
    {
      RenumberRest(t0, F, |F|, k, q);
    }
  }

  /** Outside the footnotes the first pass changes nothing. */
  lemma OutsideFootnotesUnchanged(t0: Node)
    ensures var F := Select(t0, Tag("footnote"));
      var t1 := RenumberFootnotes(t0, F, |F|);
      forall q :: Valid(t0, q) && (forall k :: 0 <= k < |F| ==> !IsPrefix(F[k], q)) ==>
        Valid(t1, q) && InfoOf(At(t1, q)) == InfoOf(At(t0, q))
  {
    var F := Select(t0, Tag("footnote"));
    forall q | Valid(t0, q) && (forall k :: 0 <= k < |F| ==> !IsPrefix(F[k], q))
      ensures Valid(RenumberFootnotes(t0, F, |F|), q) && InfoOf(At(RenumberFootnotes(t0, F, |F|), q)) == InfoOf(At(t0, q))
    {
      RenumberInfo(t0, F, |F|, q);
    }
  }

  /** No iteration before the `k`-th writes the `k`-th footnote's id, so the
      id read there is the one it had when parsed. */
  lemma OldIdUnwritten(t0: Node)
    ensures var F := Select(t0, Tag("footnote"));
      forall k :: 0 <= k < |F| && IsElem(RenumberFootnotes(t0, F, k), F[k]) ==>
        GetAttribute(At(RenumberFootnotes(t0, F, k), F[k]), "id") == IdsOf(t0, F)[k]
  {
    var F := Select(t0, Tag("footnote"));
    forall k | 0 <= k < |F| && IsElem(RenumberFootnotes(t0, F, k), F[k])
      ensures GetAttribute(At(RenumberFootnotes(t0, F, k), F[k]), "id") == IdsOf(t0, F)[k]
    {
      OldIdAt(t0, F, k);
    }
  }

  lemma OldIdAt(t0: Node, F: seq<Path>, k: nat)
    requires F == Select(t0, Tag("footnote")) && k < |F| && IsElem(RenumberFootnotes(t0, F, k), F[k])
    ensures GetAttribute(At(RenumberFootnotes(t0, F, k), F[k]), "id") == IdsOf(t0, F)[k]
  {
    RenumberKept(t0, F, k);
    forall j | 0 <= j < k
      ensures F[..k][j] != F[k]
    {
      SortedDistinctAt(F, j, k);
    }
  }

  // ---------------------------------------------------------------------------
  // idMap.

  /** The keys of `idMap` are the ids seen so far, and each maps to the
      number of the LAST footnote carrying it. */
  lemma {:induction false} IdMapLastWins(ids: seq<Option<string>>, k: nat)
    requires k <= |ids|
    ensures forall key :: key in IdMapOf(ids, k) <==> key in ids[..k]
    ensures forall key :: key in IdMapOf(ids, k) ==>
      1 <= IdMapOf(ids, k)[key] <= k && ids[IdMapOf(ids, k)[key] - 1] == key &&
      forall j :: IdMapOf(ids, k)[key] <= j < k ==> ids[j] != key
    decreases k
  {
    IdMapKeys(ids, k);
    forall key | key in IdMapOf(ids, k)
      ensures 1 <= IdMapOf(ids, k)[key] <= k && ids[IdMapOf(ids, k)[key] - 1] == key &&
        forall j :: IdMapOf(ids, k)[key] <= j < k ==> ids[j] != key
    {
      IdMapValueAt(ids, k, key);
    }
  }

  lemma {:induction false} IdMapKeys(ids: seq<Option<string>>, k: nat)
    requires k <= |ids|
    ensures forall key :: key in IdMapOf(ids, k) <==> key in ids[..k]
    decreases k
  {
    if k > 0 {
      IdMapKeys(ids, k - 1);
      assert ids[..k] == ids[..k - 1] + [ids[k - 1]];
    }
  }

  lemma {:induction false} IdMapValueAt(ids: seq<Option<string>>, k: nat, key: Option<string>)
    requires k <= |ids| && key in IdMapOf(ids, k)
    ensures 1 <= IdMapOf(ids, k)[key] <= k && ids[IdMapOf(ids, k)[key] - 1] == key
    ensures forall j :: IdMapOf(ids, k)[key] <= j < k ==> ids[j] != key
    decreases k
  {
    if ids[k - 1] != key {
      IdMapValueAt(ids, k - 1, key);
    }
  }

  /** On ids "1", ..., "N" (what the first pass leaves), `idMap` maps
      String(n) back to n. */
  lemma IdMapOfNumbering(n: nat)
    ensures forall m :: 1 <= m <= n ==>
      Some(NatToString(m)) in IdMapOf(Numbering(n), n) && IdMapOf(Numbering(n), n)[Some(NatToString(m))] == m
  {
    forall m | 1 <= m <= n
      ensures Some(NatToString(m)) in IdMapOf(Numbering(n), n) && IdMapOf(Numbering(n), n)[Some(NatToString(m))] == m
    {
      NumberingAt(n, m);
    }
  }

  lemma NumberingAt(n: nat, m: nat)
    requires 1 <= m <= n
    ensures Some(NatToString(m)) in IdMapOf(Numbering(n), n) && IdMapOf(Numbering(n), n)[Some(NatToString(m))] == m
  {
    var ids := Numbering(n);
    var key := Some(NatToString(m));
    IdMapLastWins(ids, n);
    assert ids[..n][m - 1] == key;
    assert key in IdMapOf(ids, n);
    var v := IdMapOf(ids, n)[key];
    assert 1 <= v <= n && ids[v - 1] == key;
    assert ids[v - 1] == Some(NatToString(v));
    NatToStringInjective(v, m);
  }

  // ---------------------------------------------------------------------------
  // The second pass.

  /** An anchor is remapped exactly when its `href` is `#f` followed by an
      old id that `idMap` sends to a nonzero number. */
  lemma LinkTargetIff(href: Option<string>, idMap: IdMap, k: nat)
    ensures LinkTarget(href, idMap) == Some(k) <==>
      k != 0 && exists oldId :: href == Some("#f" + oldId) && Some(oldId) in idMap && idMap[Some(oldId)] == k
  {
    if LinkTarget(href, idMap) == Some(k) {
      var oldId := href.value[2..];
      assert href.value == "#f" + oldId;
    }
    forall oldId | href == Some("#f" + oldId) && Some(oldId) in idMap && idMap[Some(oldId)] == k && k != 0
      ensures LinkTarget(href, idMap) == Some(k)
    {
      assert ("#f" + oldId)[..2] == "#f" && ("#f" + oldId)[2..] == oldId;
    }
  }

  /** Against the `idMap` of the first pass, an `href` resolves exactly
      when it names `#f` plus some footnote's old id, and it resolves to
      the number of the last footnote with that id. */
  lemma LinkResolves(href: Option<string>, ids: seq<Option<string>>)
    ensures LinkTarget(href, IdMapOf(ids, |ids|)).Some? <==>
      href.Some? && StartsWith(href.value, "#f") && Some(href.value[2..]) in ids
    ensures LinkTarget(href, IdMapOf(ids, |ids|)).Some? ==>
      var n := LinkTarget(href, IdMapOf(ids, |ids|)).value;
      1 <= n <= |ids| && ids[n - 1] == Some(href.value[2..]) &&
      forall j :: n <= j < |ids| ==> ids[j] != ids[n - 1]
  {
    IdMapLastWins(ids, |ids|);
    assert ids[..|ids|] == ids;
  }

  /** The `href` `#f<oldId>` looks `oldId` up in `idMap`. */
  lemma LinkTargetOf(oldId: string, idMap: IdMap)
    ensures LinkTarget(Some("#f" + oldId), idMap) ==
      if Some(oldId) in idMap && idMap[Some(oldId)] != 0 then Some(idMap[Some(oldId)]) else None
  {
    assert ("#f" + oldId)[..2] == "#f" && ("#f" + oldId)[2..] == oldId;
  }

  /** Remapping an anchor that resolved, with the map a second run of the
      script builds from ids "1", ..., "N", leaves it as it is. */
  lemma RelinkAgain(n: Node, ids: seq<Option<string>>)
    requires n.Element? && LinkTarget(GetAttribute(n, "href"), IdMapOf(ids, |ids|)).Some?
    ensures var first := Edited(FootnoteLink(IdMapOf(ids, |ids|)), n);
      Edited(FootnoteLink(IdMapOf(Numbering(|ids|), |ids|)), first) == first
  {
    var m := IdMapOf(ids, |ids|);
    var href := GetAttribute(n, "href").value;
    var k := LinkTarget(GetAttribute(n, "href"), m).value;
    IdMapValueAt(ids, |ids|, Some(href[2..]));
    var m2 := IdMapOf(Numbering(|ids|), |ids|);
    NumberingAt(|ids|, k);
    RelinkFixed(Edited(FootnoteLink(m), n), m2, k);
  }

  /** An anchor already pointing at `#f<k>` and holding `(k)`, remapped with
      a map that sends String(k) to k, stays as it is. */
  lemma RelinkFixed(a: Node, m2: IdMap, k: nat)
    requires a.Element? && k != 0
    requires GetAttribute(a, "href") == Some("#f" + NatToString(k)) && GetAttribute(a, "id") == Some("ref" + NatToString(k))
    requires a.children == TextChildren("(" + NatToString(k) + ")")
    requires Some(NatToString(k)) in m2 && m2[Some(NatToString(k))] == k
    ensures Edited(FootnoteLink(m2), a) == a
  {
    var num := NatToString(k);
    LinkTargetOf(num, m2);
    assert a.attrs["href" := "#f" + num]["id" := "ref" + num] == a.attrs;
  }

  /** No footnote-ref anchor lies inside another. */
  ghost predicate AnchorsApart(t: Node) {
    forall a, b :: Matches(t, a, AnchorQuery) && Matches(t, b, AnchorQuery) ==> !IsAncestor(a, b)
  }

  /** With anchors apart, each anchor the second pass selects either is left
      exactly as it was (a stray link) or points to `#f<n>`, has id
      `ref<n>` and holds only the text `(n)`, every other attribute
      unchanged. */
  lemma AnchorsRelinked(t1: Node, idMap: IdMap)
    requires AnchorsApart(t1)
    ensures var A := Select(t1, AnchorQuery);
      var t2 := EditEach(t1, A, |A|, FootnoteLink(idMap));
      forall i :: 0 <= i < |A| ==>
        IsElem(t1, A[i]) && IsElem(t2, A[i]) &&
        (LinkTarget(GetAttribute(At(t1, A[i]), "href"), idMap).None? ==> At(t2, A[i]) == At(t1, A[i])) &&
        (LinkTarget(GetAttribute(At(t1, A[i]), "href"), idMap).Some? ==>
           var num := NatToString(LinkTarget(GetAttribute(At(t1, A[i]), "href"), idMap).value);
           At(t2, A[i]) == At(t1, A[i]).(attrs := At(t1, A[i]).attrs["href" := "#f" + num]["id" := "ref" + num],
                                         children := [Text("(" + num + ")")]) &&
           TextContent(At(t2, A[i])) == "(" + num + ")")
  {
    var A := Select(t1, AnchorQuery);
    var t2 := EditEach(t1, A, |A|, FootnoteLink(idMap));
    SortedApart(A);
    forall i | 0 <= i < |A|
      ensures IsElem(t1, A[i]) && IsElem(t2, A[i]) && At(t2, A[i]) == Edited(FootnoteLink(idMap), At(t1, A[i]))
    {
      EditEachApartAt(t1, A, |A|, FootnoteLink(idMap), i);
    }
    forall i | 0 <= i < |A| && LinkTarget(GetAttribute(At(t1, A[i]), "href"), idMap).Some?
      ensures TextContent(At(t2, A[i])) == "(" + NatToString(LinkTarget(GetAttribute(At(t1, A[i]), "href"), idMap).value) + ")"
    {
      TextContentOfTextChildren(At(t2, A[i]), "(" + NatToString(LinkTarget(GetAttribute(At(t1, A[i]), "href"), idMap).value) + ")");
    }
  }

  /** The second pass adds and renames no element, changes the attributes
      of no element but a selected anchor, and leaves everything that is
      not at or below one as it was. */
  lemma OutsideAnchorsUnchanged(t1: Node, idMap: IdMap)
    ensures var A := Select(t1, AnchorQuery);
      Kept(t1, EditEach(t1, A, |A|, FootnoteLink(idMap)))
    ensures var A := Select(t1, AnchorQuery);
      var t2 := EditEach(t1, A, |A|, FootnoteLink(idMap));
      forall q :: IsElem(t2, q) && IsElem(t1, q) && !Matches(t1, q, AnchorQuery) ==> At(t2, q).attrs == At(t1, q).attrs
    ensures var A := Select(t1, AnchorQuery);
      var t2 := EditEach(t1, A, |A|, FootnoteLink(idMap));
      forall q :: Valid(t1, q) && (forall i :: 0 <= i < |A| ==> !IsPrefix(A[i], q)) ==>
        Valid(t2, q) && InfoOf(At(t2, q)) == InfoOf(At(t1, q))
  {
    var A := Select(t1, AnchorQuery);
    var e := FootnoteLink(idMap);
    EditEachKept(t1, A, |A|, e);
    assert A[..|A|] == A;
    forall q | Valid(t1, q) && (forall i :: 0 <= i < |A| ==> !IsPrefix(A[i], q))
      ensures Valid(EditEach(t1, A, |A|, e), q) && InfoOf(At(EditEach(t1, A, |A|, e), q)) == InfoOf(At(t1, q))
    {
      EditEachInfo(t1, A, |A|, e, q);
    }
  }

  // ---------------------------------------------------------------------------
  // The third pass.

  lemma AppendCancel(p: Path, q: Path, x: nat)
    ensures p + [x] == q + [x] ==> p == q
  {
    if p + [x] == q + [x] {
      assert p == (p + [x])[..|p|];
      assert q == (q + [x])[..|q|];
    }
  }

  /** The `k`-th footnote's first text node has its leading digits replaced
      by String(k+1); nothing else in the tree changes. Only distinctness of
      the footnote list is needed, which document order gives. */
  lemma FixLeadingTextsEffect(t: Node, fs: seq<Path>, k: nat)
    requires k <= |fs| && forall a, b :: 0 <= a < b < |fs| ==> fs[a] != fs[b]
    ensures forall q :: Valid(FixLeadingTexts(t, fs, k), q) <==> Valid(t, q)
    ensures forall q :: Valid(t, q) && (forall j :: 0 <= j < k && LeadsWithText(t, fs[j]) ==> q != fs[j] + [0]) ==>
      InfoOf(At(FixLeadingTexts(t, fs, k), q)) == InfoOf(At(t, q))
    ensures forall j :: 0 <= j < k && LeadsWithText(t, fs[j]) ==>
      Valid(FixLeadingTexts(t, fs, k), fs[j] + [0]) &&
      At(FixLeadingTexts(t, fs, k), fs[j] + [0]) == Text(ReplaceLeadingDigits(At(t, fs[j]).children[0].data, j + 1))
  {
    forall q
      ensures Valid(FixLeadingTexts(t, fs, k), q) <==> Valid(t, q)
    {
      FixValidAt(t, fs, k, q);
    }
    forall q | Valid(t, q) && (forall j :: 0 <= j < k && LeadsWithText(t, fs[j]) ==> q != fs[j] + [0])
      ensures InfoOf(At(FixLeadingTexts(t, fs, k), q)) == InfoOf(At(t, q))
    {
      FixInfoAt(t, fs, k, q);
    }
    forall j | 0 <= j < k && LeadsWithText(t, fs[j])
      ensures Valid(FixLeadingTexts(t, fs, k), fs[j] + [0]) &&
        At(FixLeadingTexts(t, fs, k), fs[j] + [0]) == Text(ReplaceLeadingDigits(At(t, fs[j]).children[0].data, j + 1))
    {
      FixTextAt(t, fs, k, j);
    }
  }

  /** One iteration keeps every path. */
  lemma FixOneValid(u: Node, f: Path, i: nat, q: Path)
    ensures Valid(FixLeadingText(u, f, i), q) <==> Valid(u, q)
  {
    if LeadsWithText(u, f) {
      AtConcat(u, f, [0]);
    }
  }

  /** One iteration changes nothing but the footnote's first child. */
  lemma FixOneElsewhere(u: Node, f: Path, i: nat, q: Path)
    requires Valid(u, q) && q != f + [0]
    ensures Valid(FixLeadingText(u, f, i), q) && InfoOf(At(FixLeadingText(u, f, i), q)) == InfoOf(At(u, q))
  {
    if LeadsWithText(u, f) {
      AtConcat(u, f, [0]);
    }
  }

  /** One iteration rewrites the footnote's first text child. */
  lemma FixOneHere(u: Node, f: Path, i: nat)
    requires LeadsWithText(u, f)
    ensures Valid(FixLeadingText(u, f, i), f + [0]) &&
      At(FixLeadingText(u, f, i), f + [0]) == Text(ReplaceLeadingDigits(At(u, f).children[0].data, i + 1))
  {
    AtConcat(u, f, [0]);
  }

  lemma {:induction false} FixValidAt(t: Node, fs: seq<Path>, k: nat, q: Path)
    requires k <= |fs|
    ensures Valid(FixLeadingTexts(t, fs, k), q) <==> Valid(t, q)
    decreases k
  {
    if k > 0 {
      FixValidAt(t, fs, k - 1, q);
      FixOneValid(FixLeadingTexts(t, fs, k - 1), fs[k - 1], k - 1, q);
    }
  }

  /** One iteration does not change whether another footnote starts with
      a text node, nor that node. */
  lemma LeadOneElsewhere(u: Node, f: Path, i: nat, g: Path)
    requires g != f
    ensures LeadsWithText(FixLeadingText(u, f, i), g) <==> LeadsWithText(u, g)
    ensures LeadsWithText(u, g) ==> At(FixLeadingText(u, f, i), g).children[0] == At(u, g).children[0]
  {
    var r := FixLeadingText(u, f, i);
    if LeadsWithText(u, f) {
      AtConcat(u, f, [0]);
      FixOneHere(u, f, i);
      FixOneValid(u, f, i, g);
      if g == f + [0] {
        assert !IsElem(u, g) && !IsElem(r, g);
      } else if Valid(u, g) {
        FixOneElsewhere(u, f, i, g);
        AppendCancel(g, f, 0);
        if IsElem(u, g) && |At(u, g).children| > 0 {
          AtConcat(u, g, [0]);
          AtConcat(r, g, [0]);
          FixOneElsewhere(u, f, i, g + [0]);
        }
      }
    }
  }

  /** Before the `k`-th and later iterations, such a footnote starts
      with the same text node, or not, as in the tree the pass began with. */
  lemma {:induction false} FixLeadAt(t: Node, fs: seq<Path>, k: nat, i: nat)
    requires k <= i < |fs| && forall a, b :: 0 <= a < b < |fs| ==> fs[a] != fs[b]
    ensures LeadsWithText(FixLeadingTexts(t, fs, k), fs[i]) <==> LeadsWithText(t, fs[i])
    ensures LeadsWithText(t, fs[i]) ==> At(FixLeadingTexts(t, fs, k), fs[i]).children[0] == At(t, fs[i]).children[0]
    decreases k
  {
    if k > 0 {
      FixLeadAt(t, fs, k - 1, i);
      LeadOneElsewhere(FixLeadingTexts(t, fs, k - 1), fs[k - 1], k - 1, fs[i]);
    }
  }

  lemma {:induction false} FixInfoAt(t: Node, fs: seq<Path>, k: nat, q: Path)
    requires k <= |fs| && forall a, b :: 0 <= a < b < |fs| ==> fs[a] != fs[b]
    requires Valid(t, q) && forall j :: 0 <= j < k && LeadsWithText(t, fs[j]) ==> q != fs[j] + [0]
    ensures Valid(FixLeadingTexts(t, fs, k), q) && InfoOf(At(FixLeadingTexts(t, fs, k), q)) == InfoOf(At(t, q))
    decreases k
  {
    if k > 0 {
      FixInfoAt(t, fs, k - 1, q);
      var u := FixLeadingTexts(t, fs, k - 1);
      FixLeadAt(t, fs, k - 1, k - 1);
      if LeadsWithText(u, fs[k - 1]) {
        FixOneElsewhere(u, fs[k - 1], k - 1, q);
      }
    }
  }

  lemma {:induction false} FixTextAt(t: Node, fs: seq<Path>, k: nat, j: nat)
    requires j < k <= |fs| && forall a, b :: 0 <= a < b < |fs| ==> fs[a] != fs[b]
    requires LeadsWithText(t, fs[j])
    ensures Valid(FixLeadingTexts(t, fs, k), fs[j] + [0]) &&
      At(FixLeadingTexts(t, fs, k), fs[j] + [0]) == Text(ReplaceLeadingDigits(At(t, fs[j]).children[0].data, j + 1))
    decreases k
  {
    var u := FixLeadingTexts(t, fs, k - 1);
    var f := fs[k - 1];
    if j == k - 1 {
      FixLeadAt(t, fs, k - 1, k - 1);
      FixOneHere(u, f, k - 1);
    } else {
      FixTextAt(t, fs, k - 1, j);
      AppendCancel(fs[j], f, 0);
      FixOneElsewhere(u, f, k - 1, fs[j] + [0]);
    }
  }

  // ---------------------------------------------------------------------------
  // The script.

  /** updateLeadingNumber(pNode, newNum) */
  method UpdateLeadingNumber(doc: Document, p: Path, newNum: nat)
    modifies doc
    ensures doc.root == EditAt(old(doc.root), p, LeadingNumber(newNum))
  {
    if IsElem(doc.root, p) {
      var txt := TextContent(At(doc.root, p));
      match Relabel(txt, newNum)
      case Some(s) =>
        doc.SetTextContent(p, s);
      case None =>
        PutSame(doc.root, p);
    }
  }

  /** The first pass: number the footnotes in document order and record
      old id -> new number. */
  method NumberFootnotes(doc: Document) returns (footnoteNodes: seq<Path>, idMap: IdMap)
    modifies doc
    ensures footnoteNodes == Select(old(doc.root), Tag("footnote"))
    ensures idMap == IdMapOf(IdsOf(old(doc.root), footnoteNodes), |footnoteNodes|)
    ensures doc.root == RenumberFootnotes(old(doc.root), footnoteNodes, |footnoteNodes|)
  {
    var t0 := doc.root;
    footnoteNodes := Select(t0, Tag("footnote"));
    ghost var oldIds := IdsOf(t0, footnoteNodes);
    idMap := map[];
    for k := 0 to |footnoteNodes|
      invariant doc.root == RenumberFootnotes(t0, footnoteNodes, k)
      invariant idMap == IdMapOf(oldIds, k)
    {
      idMap := NumberFootnote(doc, t0, footnoteNodes, k, idMap);
    }
  }

  /** The body of the first pass for the `k`-th footnote of the parsed tree
      `t0`: record its old id, then renumber it. */
  method NumberFootnote(doc: Document, t0: Node, footnoteNodes: seq<Path>, k: nat, idMap: IdMap) returns (idMap': IdMap)
    requires footnoteNodes == Select(t0, Tag("footnote")) && k < |footnoteNodes|
    requires doc.root == RenumberFootnotes(t0, footnoteNodes, k)
    requires idMap == IdMapOf(IdsOf(t0, footnoteNodes), k)
    modifies doc
    ensures idMap' == IdMapOf(IdsOf(t0, footnoteNodes), k + 1)
    ensures doc.root == RenumberFootnotes(t0, footnoteNodes, k + 1)
  {
    var fn := footnoteNodes[k];
    var newNum := k + 1;
    if IsElem(doc.root, fn) {
      OldIdAt(t0, footnoteNodes, k);
      var oldId := GetAttribute(At(doc.root, fn), "id");
      idMap' := idMap[oldId := newNum];
      SetFootnoteNumber(doc, fn, k);
    } else {
      // A footnote an earlier rewrite detached: nothing has written its
      // id, which is still the one it was parsed with.
      var oldId := GetAttribute(At(t0, fn), "id");
      idMap' := idMap[oldId := newNum];
    }
  }

  /** The rest of the first pass's body for the `k`-th footnote: its new id,
      then updateLeadingNumber on each of its `<p>` elements. */
  method SetFootnoteNumber(doc: Document, fn: Path, k: nat)
    requires IsElem(doc.root, fn)
    modifies doc
    ensures doc.root == RenumberFootnote(old(doc.root), fn, k)
  {
    var newNum := k + 1;
    doc.SetAttribute(fn, "id", NatToString(newNum));
    var ps := Select(doc.root, Descendant(fn, "p"));
    ghost var t1 := doc.root;
    for i := 0 to |ps|
      invariant doc.root == EditEach(t1, ps, i, LeadingNumber(newNum))
    {
      UpdateLeadingNumber(doc, ps[i], newNum);
    }
  }

  /** The body of the second pass for one anchor. */
  method RelinkAnchor(doc: Document, a: Path, idMap: IdMap)
    modifies doc
    ensures doc.root == EditAt(old(doc.root), a, FootnoteLink(idMap))
  {
    if IsElem(doc.root, a) {
      PutSame(doc.root, a);
      var href := GetAttribute(At(doc.root, a), "href");
      if href.None? || href.value == "" || !StartsWith(href.value, "#f") {
        return;
      }
      var oldId := href.value[2..];
      if Some(oldId) !in idMap || idMap[Some(oldId)] == 0 {
        return;
      }
      var newNum := idMap[Some(oldId)];
      ghost var t := doc.root;
      ghost var n := At(t, a);
      doc.SetAttribute(a, "href", "#f" + NatToString(newNum));
      doc.SetAttribute(a, "id", "ref" + NatToString(newNum));
      doc.SetTextContent(a, "(" + NatToString(newNum) + ")");
      PutTwice(t, a, n.(attrs := n.attrs["href" := "#f" + NatToString(newNum)]),
        n.(attrs := n.attrs["href" := "#f" + NatToString(newNum)]["id" := "ref" + NatToString(newNum)]));
      PutTwice(t, a, n.(attrs := n.attrs["href" := "#f" + NatToString(newNum)]["id" := "ref" + NatToString(newNum)]),
        Edited(FootnoteLink(idMap), n));
    }
  }

  /** The second pass: remap every footnote-ref anchor. */
  method RelinkAnchors(doc: Document, idMap: IdMap) returns (anchors: seq<Path>)
    modifies doc
    ensures anchors == Select(old(doc.root), AnchorQuery)
    ensures doc.root == EditEach(old(doc.root), anchors, |anchors|, FootnoteLink(idMap))
  {
    ghost var t1 := doc.root;
    anchors := Select(doc.root, AnchorQuery);
    for i := 0 to |anchors|
      invariant doc.root == EditEach(t1, anchors, i, FootnoteLink(idMap))
    {
      RelinkAnchor(doc, anchors[i], idMap);
    }
  }

  /** The third pass: the leading digits of a footnote's first text node. */
  method FixLeadingTextsIn(doc: Document, footnoteNodes: seq<Path>)
    modifies doc
    ensures doc.root == FixLeadingTexts(old(doc.root), footnoteNodes, |footnoteNodes|)
  {
    ghost var t2 := doc.root;
    for k := 0 to |footnoteNodes|
      invariant doc.root == FixLeadingTexts(t2, footnoteNodes, k)
    {
      var fn := footnoteNodes[k];
      var newNum := k + 1;
      if LeadsWithText(doc.root, fn) {
        AtConcat(doc.root, fn, [0]);
        doc.SetData(fn + [0], ReplaceLeadingDigits(At(doc.root, fn).children[0].data, newNum));
      }
    }
  }

  /** The whole script, between parsing and serialising. */
  method Run(doc: Document) returns (footnoteNodes: seq<Path>, idMap: IdMap, anchors: seq<Path>)
    modifies doc
    ensures footnoteNodes == Select(old(doc.root), Tag("footnote"))
    ensures idMap == IdMapOf(IdsOf(old(doc.root), footnoteNodes), |footnoteNodes|)
    ensures var t1 := RenumberFootnotes(old(doc.root), footnoteNodes, |footnoteNodes|);
      anchors == Select(t1, AnchorQuery) &&
      doc.root == FixLeadingTexts(EditEach(t1, anchors, |anchors|, FootnoteLink(idMap)), footnoteNodes, |footnoteNodes|)
  {
    footnoteNodes, idMap := NumberFootnotes(doc);
    anchors := RelinkAnchors(doc, idMap);
    FixLeadingTextsIn(doc, footnoteNodes);
  }
}
