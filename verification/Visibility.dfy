/** Which items of other crates are publicly visible (src/librustdoc/visit_lib.rs): a depth-first
    visit of public module children that stops at hidden items.
 */
module Visibility {
  import opened Wrappers

  type DefId = nat

  /** A module child: what it resolves to, if that is a definition, and whether it is public. */
  datatype Child = Child(def: Option<DefId>, isPublic: bool)

  /** The module graph of the other crates. Re-exports may make it cyclic. */
  datatype Graph = Graph(modules: set<DefId>, children: map<DefId, seq<Child>>, hidden: set<DefId>) {

    function Children(m: DefId): seq<Child> {
      if m in children then children[m] else []
    }

    predicate IsPublicChild(m: DefId, d: DefId) {
      exists i :: 0 <= i < |Children(m)| && Children(m)[i] == Child(Some(d), true)
    }

    /** Hidden items are passed over, unless they are documented as well. */
    predicate Shown(d: DefId, documentHidden: bool) {
      documentHidden || d !in hidden
    }

    /** A path from `from` to `to` through modules and their public children, all shown. */
    predicate IsPath(p: seq<DefId>, from: DefId, to: DefId, documentHidden: bool) {
      && p != [] && p[0] == from && p[|p| - 1] == to
      && (forall i :: 0 <= i < |p| ==> Shown(p[i], documentHidden))
      && (forall i :: 0 <= i < |p| - 1 ==> p[i] in modules && IsPublicChild(p[i], p[i + 1]))
    }

    ghost predicate Reaches(from: DefId, to: DefId, documentHidden: bool) {
      exists p: seq<DefId> :: IsPath(p, from, to, documentHidden)
    }

    /** Every shown public child of `m` is recorded, and visited when it is a module. */
    predicate Closed(m: DefId, recorded: set<DefId>, visited: set<DefId>, documentHidden: bool) {
      forall i :: 0 <= i < |Children(m)| ==>
        ChildDone(Children(m)[i], recorded, visited, documentHidden)
    }

    predicate ChildDone(child: Child, recorded: set<DefId>, visited: set<DefId>, documentHidden: bool) {
      child.def.Some? && child.isPublic && Shown(child.def.value, documentHidden) ==>
        child.def.value in recorded && (child.def.value in modules ==> child.def.value in visited)
    }
  }

  lemma {:induction false} ReachesSelf(g: Graph, d: DefId, documentHidden: bool)
    requires g.Shown(d, documentHidden)
    ensures g.Reaches(d, d, documentHidden)
  {
    assert g.IsPath([d], d, d, documentHidden);
  }

  /** What a public child of a shown module reaches, the module reaches. */
  lemma {:induction false} ReachesThrough(g: Graph, m: DefId, child: DefId, d: DefId, documentHidden: bool)
    requires m in g.modules && g.Shown(m, documentHidden) && g.IsPublicChild(m, child)
    requires g.Reaches(child, d, documentHidden)
    ensures g.Reaches(m, d, documentHidden)
  {
    var p: seq<DefId> :| g.IsPath(p, child, d, documentHidden);
    var longer := [m] + p;
    forall i | 0 <= i < |longer| - 1
      ensures longer[i] in g.modules && g.IsPublicChild(longer[i], longer[i + 1])
    {
      if i > 0 {
        assert p[i - 1] in g.modules && g.IsPublicChild(p[i - 1], p[i]);
      }
    }
    assert g.IsPath(longer, m, d, documentHidden);
  }

  /** When every visited module is closed, all that a recorded root reaches is recorded. */
  lemma {:induction false} ClosedCoversPath(
    g: Graph, p: seq<DefId>, root: DefId, d: DefId, recorded: set<DefId>, visited: set<DefId>, documentHidden: bool)
    requires g.IsPath(p, root, d, documentHidden)
    requires root in recorded && (root in g.modules ==> root in visited)
    requires forall m :: m in visited ==> g.Closed(m, recorded, visited, documentHidden)
    ensures d in recorded
    decreases |p|
  {
    if |p| > 1 {
      assert g.IsPublicChild(p[0], p[1]);
      var i :| 0 <= i < |g.Children(root)| && g.Children(root)[i] == Child(Some(p[1]), true);
      assert g.ChildDone(g.Children(root)[i], recorded, visited, documentHidden);
      var rest := p[1..];
      forall j | 0 <= j < |rest| - 1
        ensures rest[j] in g.modules && g.IsPublicChild(rest[j], rest[j + 1])
      {
        assert p[j + 1] in g.modules && g.IsPublicChild(p[j + 1], p[j + 2]);
      }
      ClosedCoversPath(g, rest, p[1], d, recorded, visited, documentHidden);
    }
  }

  /** `LibEmbargoVisitor`. */
  class Visitor {
    const graph: Graph
    const documentHidden: bool
    var externPublic: set<DefId>
    var visitedMods: set<DefId>

    constructor (graph: Graph, documentHidden: bool, externPublic: set<DefId>)
      ensures this.graph == graph && this.documentHidden == documentHidden
      ensures this.externPublic == externPublic && visitedMods == {}
    {
      this.graph := graph;
      this.documentHidden := documentHidden;
      this.externPublic := externPublic;
      this.visitedMods := {};
    }

    /** Both sets only grow; what is new is reachable from `root`; and the newly visited
        modules other than `open` are closed. */
    twostate predicate Extended(root: DefId, open: set<DefId>)
      reads this
    {
      && old(externPublic) <= externPublic && old(visitedMods) <= visitedMods
      && (forall d :: d in externPublic && d !in old(externPublic) ==> graph.Reaches(root, d, documentHidden))
      && (forall m :: m in visitedMods && m !in old(visitedMods) && m !in open ==>
            graph.Closed(m, externPublic, visitedMods, documentHidden))
    }

    method VisitMod(m: DefId)
      requires m in graph.modules && graph.Shown(m, documentHidden)
      modifies this`externPublic, this`visitedMods
      ensures m in visitedMods && Extended(m, {})
      decreases graph.modules - visitedMods, 0
    {
      if m in visitedMods {
        return;
      }
      visitedMods := visitedMods + {m};
      var children := graph.Children(m);
      for i := 0 to |children|
        invariant m in visitedMods && Extended(m, {m})
        invariant forall j :: 0 <= j < i ==> graph.ChildDone(children[j], externPublic, visitedMods, documentHidden)
      {
        var child := children[i];
        if child.def.Some? && child.isPublic {
          ghost var recorded := externPublic;
          VisitItem(child.def.value);
          assert graph.IsPublicChild(m, child.def.value);
          forall d | d in externPublic && d !in recorded
            ensures graph.Reaches(m, d, documentHidden)
          {
            ReachesThrough(graph, m, child.def.value, d, documentHidden);
          }
        }
      }
    }

    method VisitItem(d: DefId)
      modifies this`externPublic, this`visitedMods
      ensures Extended(d, {})
      ensures graph.Shown(d, documentHidden) ==> d in externPublic && (d in graph.modules ==> d in visitedMods)
      decreases graph.modules - visitedMods, 1
    {
      if documentHidden || d !in graph.hidden {
        ReachesSelf(graph, d, documentHidden);
        externPublic := externPublic + {d};
        if d in graph.modules {
          VisitMod(d);
        }
      }
    }
  }

  /** `RustdocEffectiveVisibilities`. */
  class EffectiveVisibilities {
    var externPublic: set<DefId>

    constructor ()
      ensures externPublic == {}
    {
      externPublic := {};
    }

    /** `lib_embargo_visit_item`: records exactly what is reachable from `root`, besides what
        was recorded before. */
    method VisitItem(graph: Graph, documentHidden: bool, root: DefId)
      modifies this
      ensures forall d :: d in externPublic <==> d in old(externPublic) || graph.Reaches(root, d, documentHidden)
    {
      var visitor := new Visitor(graph, documentHidden, externPublic);
      visitor.VisitItem(root);
      forall d | graph.Reaches(root, d, documentHidden)
        ensures d in visitor.externPublic
      {
        var p: seq<DefId> :| graph.IsPath(p, root, d, documentHidden);
        ClosedCoversPath(graph, p, root, d, visitor.externPublic, visitor.visitedMods, documentHidden);
      }
      externPublic := visitor.externPublic;
    }

    /** Visiting several roots, as for every crate, accumulates the union. */
    method VisitItems(graph: Graph, documentHidden: bool, roots: seq<DefId>)
      modifies this
      ensures forall d :: d in externPublic
                <==> || d in old(externPublic)
                     || exists i :: 0 <= i < |roots| && graph.Reaches(roots[i], d, documentHidden)
    {
      for i := 0 to |roots|
        invariant forall d :: d in externPublic
                    <==> d in old(externPublic) || exists j :: 0 <= j < i && graph.Reaches(roots[j], d, documentHidden)
      {
        VisitItem(graph, documentHidden, roots[i]);
      }
    }
  }
}
