/**
 * The target tree the reconciler of `src/vdom4.ts` writes into, in place of the browser DOM:
 * nodes by id, each with its parent link, its ordered children and, for elements, the state
 * `setProperties` writes.  `appendChild`, `insertBefore`, `removeChild` and `replaceChild`
 * follow the DOM's rules for a node that moves: it is first taken out of its old parent.
 * A call the DOM would reject (a missing node, a reference node that is not a child) yields
 * `Err` with the name of the exception.
 */
module TargetTree {
  import opened JsValues
  import DomProperties

  type DomId = nat

  datatype DomNode = DomNode(
    tag: string,
    text: Option<string>,
    parent: Option<DomId>,
    children: seq<DomId>,
    element: DomProperties.ElementState)

  type Dom = map<DomId, DomNode>

  const NoProperties := DomProperties.ElementState({}, map[], map[], map[], [], {})

  predicate Distinct(s: seq<DomId>)
  {
    forall i, j :: 0 <= i < j < |s| ==> s[i] != s[j]
  }

  /**
   * Parent links and child lists agree: each child of a node names it as parent, and a node
   * that names a parent is listed by that parent, once.
   */
  ghost predicate Consistent(dom: Dom)
  {
    ChildLinks(dom) && ParentLinks(dom) && ChildrenDistinct(dom)
  }

  /** Each child of a node names it as parent. */
  ghost predicate ChildLinks(dom: Dom)
  {
    forall p, c :: p in dom && c in dom[p].children ==> c in dom && dom[c].parent == Some(p)
  }

  /** A node that names a parent is listed by that parent. */
  ghost predicate ParentLinks(dom: Dom)
  {
    forall c :: c in dom && dom[c].parent.Some? ==> dom[c].parent.value in dom && c in dom[dom[c].parent.value].children
  }

  /** No child list holds a node twice. */
  ghost predicate ChildrenDistinct(dom: Dom)
  {
    forall p :: p in dom ==> Distinct(dom[p].children)
  }

  /** The first position of `x` in `s`. */
  function Position(s: seq<DomId>, x: DomId): (r: nat)
    requires x in s
    ensures r < |s| && s[r] == x && x !in s[..r]
  {
    if s[0] == x then 0
    else
      var k := Position(s[1..], x);
      assert s[1..][..k] == s[1..k + 1];
      k + 1
  }

  /** `s` without `x`. */
  function Without(s: seq<DomId>, x: DomId): (r: seq<DomId>)
    ensures Distinct(s) ==> Distinct(r)
    ensures forall y :: y != x ==> (y in r <==> y in s)
    ensures forall y :: y in r ==> y in s
    ensures Distinct(s) ==> x !in r
  {
    if x !in s then s
    else
      var i := Position(s, x);
      var r := s[..i] + s[i + 1..];
      assert forall y :: y in r <==> y in s[..i] || y in s[i + 1..];
      assert forall y :: y in s <==> y in s[..i] || y == x || y in s[i + 1..] by {
        assert s == s[..i] + [x] + s[i + 1..];
      }
      r
  }

  /** `document.createElement(tag)` or `createTextNode(text)`: a new node with no parent. */
  function Create(dom: Dom, id: DomId, tag: string, text: Option<string>): (r: Dom)
    requires id !in dom
    ensures Consistent(dom) ==> Consistent(r)
    ensures r.Keys == dom.Keys + {id} && r[id].parent.None? && r[id].children == []
  {
    dom[id := DomNode(tag, text, None, [], NoProperties)]
  }

  /** Takes `c` out of its parent's children, if it has a parent. */
  function Detach(dom: Dom, c: DomId): (r: Dom)
    requires c in dom
    ensures r.Keys == dom.Keys && r[c].parent.None?
    ensures forall x :: x in dom && x != c ==> r[x].parent == dom[x].parent && r[x].element == dom[x].element
    ensures forall x :: x in dom && (dom[c].parent.None? || x != dom[c].parent.value) ==> r[x].children == dom[x].children
  {
    match dom[c].parent
    case None => dom
    case Some(p) =>
      if p !in dom then dom[c := dom[c].(parent := None)]
      else
        var d1 := dom[p := dom[p].(children := Without(dom[p].children, c))];
        d1[c := d1[c].(parent := None)]
  }

  lemma DetachConsistent(dom: Dom, c: DomId)
    requires Consistent(dom) && c in dom
    ensures var r := Detach(dom, c); Consistent(r) && forall p :: p in r ==> c !in r[p].children
  {
    if dom[c].parent.Some? {
      var q := dom[c].parent.value;
      var d1 := dom[q := dom[q].(children := Without(dom[q].children, c))];
      var r := d1[c := d1[c].(parent := None)];
      assert Detach(dom, c) == r;
      DetachedLinks(dom, c, q, r);
    }
  }

  /** `r` is `dom` with `c` taken out of its parent `q`'s children and its parent link cleared. */
  ghost predicate DetachedFrom(dom: Dom, c: DomId, q: DomId, r: Dom)
  {
    && Consistent(dom) && c in dom && dom[c].parent == Some(q) && q in dom
    && r.Keys == dom.Keys && r[c].parent.None? && r[c].element == dom[c].element
    && r[q].children == Without(dom[q].children, c)
    && (forall x :: x in dom && x != c ==> r[x].parent == dom[x].parent)
    && (forall x :: x in dom && x != q ==> r[x].children == dom[x].children)
  }

  lemma DetachedLinks(dom: Dom, c: DomId, q: DomId, r: Dom)
    requires DetachedFrom(dom, c, q, r)
    ensures Consistent(r) && forall p :: p in r ==> c !in r[p].children
  {
    DetachedChildLinks(dom, c, q, r);
    DetachedParentLinks(dom, c, q, r);
    DetachedDistinct(dom, c, q, r);
  }

  lemma DetachedChildLinks(dom: Dom, c: DomId, q: DomId, r: Dom)
    requires DetachedFrom(dom, c, q, r)
    ensures ChildLinks(r)
  {
    forall p, x | p in r && x in r[p].children
      ensures x in r && r[x].parent == Some(p)
    {
      assert ChildLinks(dom) && ChildrenDistinct(dom);
      if p == q {
        assert Distinct(dom[q].children);
        assert x in dom[q].children && x != c;
      } else {
        assert r[p].children == dom[p].children;
      }
      assert x in dom && dom[x].parent == Some(p);
    }
  }

  lemma DetachedParentLinks(dom: Dom, c: DomId, q: DomId, r: Dom)
    requires DetachedFrom(dom, c, q, r)
    ensures ParentLinks(r)
  {
    forall x | x in r && r[x].parent.Some?
      ensures r[x].parent.value in r && x in r[r[x].parent.value].children
    {
      assert r[x].parent == dom[x].parent;
    }
  }

  lemma DetachedDistinct(dom: Dom, c: DomId, q: DomId, r: Dom)
    requires DetachedFrom(dom, c, q, r)
    ensures ChildrenDistinct(r) && forall p :: p in r ==> c !in r[p].children
  {
    forall p | p in r
      ensures c !in r[p].children && Distinct(r[p].children)
    {
      if p != q {
        assert r[p].children == dom[p].children;
      }
    }
  }

  /** `parent.appendChild(c)`: `c` moves to the end of `parent`'s children. */
  function AppendChild(dom: Dom, parent: DomId, c: DomId): (r: Result<Dom>)
    ensures r.Ok? <==> parent in dom && c in dom && parent != c
    ensures r.Ok? ==> (r.value.Keys == dom.Keys && r.value[c].parent == Some(parent)
      && |r.value[parent].children| > 0 && r.value[parent].children[|r.value[parent].children| - 1] == c)
  {
    if parent !in dom || c !in dom then Err("TypeError")
    else if parent == c then Err("HierarchyRequestError")
    else
      var d1 := Detach(dom, c);
      Ok(Adopt(d1, parent, c, d1[parent].children + [c]))
  }

  lemma AppendChildConsistent(dom: Dom, parent: DomId, c: DomId)
    requires Consistent(dom)
    ensures AppendChild(dom, parent, c).Ok? ==> Consistent(AppendChild(dom, parent, c).value)
  {
    if parent in dom && c in dom && parent != c {
      var d1 := Detach(dom, c);
      DetachConsistent(dom, c);
      Attach(d1, parent, c, d1[parent].children + [c]);
    }
  }

  /** `parent` gets the child list `children`, and `c` gets `parent` as its parent. */
  function Adopt(d: Dom, parent: DomId, c: DomId, children: seq<DomId>): (r: Dom)
    requires parent in d && c in d && parent != c
    ensures r.Keys == d.Keys && r[c].parent == Some(parent) && r[parent].children == children
  {
    var d2 := d[parent := d[parent].(children := children)];
    d2[c := d2[c].(parent := Some(parent))]
  }

  /**
   * Giving a detached `c` the parent `parent` whose new child list is the old one plus `c`
   * keeps the tree consistent.
   */
  lemma Attach(d1: Dom, parent: DomId, c: DomId, children: seq<DomId>)
    requires AttachFits(d1, parent, c, children)
    ensures Consistent(Adopt(d1, parent, c, children))
  {
    var d3 := Adopt(d1, parent, c, children);
    AttachedChildLinks(d1, parent, c, children, d3);
    AttachedParentLinks(d1, parent, c, children, d3);
  }

  /** What `Attach` needs: a consistent tree, a detached `c`, and `children` the old list plus `c`. */
  ghost predicate AttachFits(d1: Dom, parent: DomId, c: DomId, children: seq<DomId>)
  {
    && Consistent(d1) && parent in d1 && c in d1 && parent != c
    && d1[c].parent.None? && (forall p :: p in d1 ==> c !in d1[p].children)
    && (forall y :: y in children <==> y in d1[parent].children || y == c)
    && Distinct(children)
  }

  lemma AttachedChildLinks(d1: Dom, parent: DomId, c: DomId, children: seq<DomId>, d3: Dom)
    requires AttachFits(d1, parent, c, children) && d3 == Adopt(d1, parent, c, children)
    ensures ChildLinks(d3)
  {
    forall p, x | p in d3 && x in d3[p].children
      ensures x in d3 && d3[x].parent == Some(p)
    {
      if p == parent {
        if x != c {
          assert x in d1[parent].children;
        }
      } else {
        assert x in d1[p].children;
      }
    }
  }

  lemma AttachedParentLinks(d1: Dom, parent: DomId, c: DomId, children: seq<DomId>, d3: Dom)
    requires AttachFits(d1, parent, c, children) && d3 == Adopt(d1, parent, c, children)
    ensures ParentLinks(d3) && ChildrenDistinct(d3)
  {
    forall x | x in d3 && d3[x].parent.Some?
      ensures d3[x].parent.value in d3 && x in d3[d3[x].parent.value].children
    {
      if x != c {
        assert d3[x].parent == d1[x].parent;
      }
    }
    forall p | p in d3
      ensures Distinct(d3[p].children)
    {
      if p != parent && p != c {
        assert d3[p] == d1[p];
      }
    }
  }

  /** The children `s` with `c` placed just before `ref`. */
  function PlaceBefore(s: seq<DomId>, c: DomId, ref: DomId): (r: seq<DomId>)
    requires ref in s
    ensures forall y :: y in r <==> y in s || y == c
  {
    var i := Position(s, ref);
    assert s == s[..i] + s[i..];
    s[..i] + [c] + s[i..]
  }

  lemma PlaceBeforeDistinct(s: seq<DomId>, c: DomId, ref: DomId)
    requires ref in s && Distinct(s) && c !in s
    ensures Distinct(PlaceBefore(s, c, ref))
  {
    var i := Position(s, ref);
    var r := PlaceBefore(s, c, ref);
    assert r == s[..i] + [c] + s[i..];
    forall a, b | 0 <= a < b < |r|
      ensures r[a] != r[b]
    {
      if a < i && b > i {
        assert r[b] == s[b - 1];
      } else if a > i {
        assert r[a] == s[a - 1] && r[b] == s[b - 1];
      } else if a == i {
        assert r[b] == s[b - 1];
      } else {
        assert r[a] == s[a];
      }
    }
  }

  /**
   * `parent.insertBefore(c, ref)`: `c` moves just before `ref`, which must be a child of
   * `parent` (otherwise the DOM throws `NotFoundError`).
   */
  function InsertBefore(dom: Dom, parent: DomId, c: DomId, ref: DomId): (r: Result<Dom>)
    ensures r.Ok? ==> parent in dom && c in dom && ref in dom[parent].children
    ensures r.Ok? ==> r.value.Keys == dom.Keys
    ensures r.Ok? && c != ref ==> r.value[c].parent == Some(parent)
  {
    if parent !in dom || c !in dom then Err("TypeError")
    else if parent == c then Err("HierarchyRequestError")
    else if ref !in dom[parent].children then Err("NotFoundError")
    else if c == ref then Ok(dom)
    else
      var d1 := Detach(dom, c);
      DetachKeepsOthers(dom, c, parent, ref);
      Ok(Adopt(d1, parent, c, PlaceBefore(d1[parent].children, c, ref)))
  }

  /** Taking `c` out of its parent leaves every other child where it was. */
  lemma DetachKeepsOthers(dom: Dom, c: DomId, p: DomId, x: DomId)
    requires c in dom && p in dom && x in dom[p].children && x != c
    ensures x in Detach(dom, c)[p].children
  {
    if dom[c].parent == Some(p) {
      assert Detach(dom, c)[p].children == Without(dom[p].children, c);
    }
  }

  lemma InsertBeforeConsistent(dom: Dom, parent: DomId, c: DomId, ref: DomId)
    requires Consistent(dom)
    ensures InsertBefore(dom, parent, c, ref).Ok? ==> Consistent(InsertBefore(dom, parent, c, ref).value)
  {
    if parent in dom && c in dom && parent != c && ref in dom[parent].children && c != ref {
      var d1 := Detach(dom, c);
      DetachConsistent(dom, c);
      assert ref in d1[parent].children by {
        assert dom[ref].parent == Some(parent);
      }
      PlaceBeforeDistinct(d1[parent].children, c, ref);
      Attach(d1, parent, c, PlaceBefore(d1[parent].children, c, ref));
    }
  }

  /** `parent.removeChild(c)`: `c` must be a child of `parent` (otherwise `NotFoundError`). */
  function RemoveChild(dom: Dom, parent: DomId, c: DomId): (r: Result<Dom>)
    ensures r.Ok? <==> parent in dom && c in dom[parent].children && c in dom
    ensures r.Ok? ==> r.value.Keys == dom.Keys && r.value[c].parent.None?
  {
    if parent !in dom then Err("TypeError")
    else if c !in dom[parent].children || c !in dom then Err("NotFoundError")
    else Ok(Detach(dom, c))
  }

  lemma RemoveChildConsistent(dom: Dom, parent: DomId, c: DomId)
    requires Consistent(dom)
    ensures RemoveChild(dom, parent, c).Ok? ==> (Consistent(RemoveChild(dom, parent, c).value)
      && c !in RemoveChild(dom, parent, c).value[parent].children)
  {
    if parent in dom && c in dom[parent].children && c in dom {
      DetachConsistent(dom, c);
    }
  }

  /** `parent.replaceChild(newChild, oldChild)`: `newChild` takes `oldChild`'s place. */
  function ReplaceChild(dom: Dom, parent: DomId, newChild: DomId, oldChild: DomId): (r: Result<Dom>)
    ensures r.Ok? ==> parent in dom && newChild in dom && oldChild in dom && oldChild in dom[parent].children
    ensures r.Ok? ==> r.value.Keys == dom.Keys
    ensures r.Ok? && newChild != oldChild ==> r.value[newChild].parent == Some(parent) && r.value[oldChild].parent.None?
  {
    if parent !in dom || newChild !in dom || oldChild !in dom then Err("TypeError")
    else if parent == newChild then Err("HierarchyRequestError")
    else if oldChild !in dom[parent].children then Err("NotFoundError")
    else if newChild == oldChild then Ok(dom)
    else
      match InsertBefore(dom, parent, newChild, oldChild)
      case Err(e) => Err(e)
      case Ok(d1) => RemoveChild(d1, parent, oldChild)
  }
}
