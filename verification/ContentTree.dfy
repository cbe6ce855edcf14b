/** The guard as it runs: a backward walk that edits a live tree of shared elements in place. */
module ContentTree {
  import opened RichText
  import opened ContentGuard

  /** An element of the live document; a fragment is its root. */
  class XmlElement {
    var name: string
    var attrs: Attributes
    var children: seq<Child>
    /** This element and every element below it, or that was once below it. */
    ghost var Repr: set<XmlElement>

    constructor (name: string)
      ensures this.name == name && attrs == map[] && children == [] && Repr == {this}
    {
      this.name, attrs, children, Repr := name, map[], [], {this};
    }
  }

  /** What an element holds at an index. A text run is only ever replaced whole. */
  datatype Child = ElementChild(element: XmlElement) | TextChild(delta: seq<Segment>) | HookChild(name: string)

  /** A tree: each element owns its children's footprints, and siblings share nothing. */
  ghost predicate IsTree(e: XmlElement)
    reads e`children, e`Repr, e.Repr - {e}
    decreases e.Repr
  {
    && e in e.Repr
    && (forall i :: 0 <= i < |e.children| && e.children[i].ElementChild? ==>
          var c := e.children[i].element;
          c in e.Repr && c.Repr <= e.Repr - {e} && IsTree(c))
    && (forall i, j :: 0 <= i < j < |e.children| && e.children[i].ElementChild? && e.children[j].ElementChild? ==>
          e.children[i].element.Repr !! e.children[j].element.Repr)
  }

  ghost function NodeAt(e: XmlElement, i: nat): Node
    requires IsTree(e) && i < |e.children|
    reads e`children, e`Repr, e.Repr - {e}
    decreases e.Repr, 0
  {
    match e.children[i]
    case ElementChild(c) => Element(c.name, c.attrs, NodesOf(c))
    case TextChild(delta) => Run(delta)
    case HookChild(name) => Hook(name)
  }

  /** The forest an element holds. */
  ghost function NodesOf(e: XmlElement): (forest: Forest)
    requires IsTree(e)
    reads e`children, e`Repr, e.Repr - {e}
    ensures |forest| == |e.children|
    decreases e.Repr, 2
  {
    NodesUpTo(e, |e.children|)
  }

  ghost function NodesUpTo(e: XmlElement, n: nat): (forest: Forest)
    requires IsTree(e) && n <= |e.children|
    reads e`children, e`Repr, e.Repr - {e}
    ensures |forest| == n
    decreases e.Repr, 1, n
  {
    if n == 0 then [] else NodesUpTo(e, n - 1) + [NodeAt(e, n - 1)]
  }

  lemma {:induction false} NodesUpToAt(e: XmlElement, n: nat, i: nat)
    requires IsTree(e) && i < n <= |e.children|
    ensures NodesUpTo(e, n)[i] == NodeAt(e, i)
    decreases n
  {
    if i < n - 1 {
      NodesUpToAt(e, n - 1, i);
    }
  }

  lemma NodesAre(e: XmlElement, forest: Forest)
    requires IsTree(e) && |forest| == |e.children|
    requires forall i :: 0 <= i < |forest| ==> forest[i] == NodeAt(e, i)
    ensures NodesOf(e) == forest
  {
    forall i | 0 <= i < |forest|
      ensures NodesOf(e)[i] == forest[i]
    {
      NodesUpToAt(e, |e.children|, i);
    }
  }

  lemma NodesAt(e: XmlElement)
    requires IsTree(e)
    ensures forall i :: 0 <= i < |e.children| ==> NodesOf(e)[i] == NodeAt(e, i)
  {
    forall i | 0 <= i < |e.children|
      ensures NodesOf(e)[i] == NodeAt(e, i)
    {
      NodesUpToAt(e, |e.children|, i);
    }
  }

  /* ------------------------------- edits ------------------------------- */

  method Delete(parent: XmlElement, index: nat)
    requires IsTree(parent) && index < |parent.children|
    modifies parent`children
    ensures IsTree(parent) && parent.children == old(parent.children[..index] + parent.children[index + 1..])
    ensures NodesOf(parent) == old(NodesOf(parent)[..index] + NodesOf(parent)[index + 1..])
  {
    NodesAt(parent);
    ghost var before := NodesOf(parent);
    parent.children := parent.children[..index] + parent.children[index + 1..];
    NodesAre(parent, before[..index] + before[index + 1..]);
  }

  method InsertText(parent: XmlElement, index: nat, text: string)
    requires IsTree(parent) && index <= |parent.children|
    modifies parent`children
    ensures IsTree(parent)
    ensures parent.children == old(parent.children[..index]) + [TextChild(Plain(text).delta)] + old(parent.children[index..])
    ensures NodesOf(parent) == old(NodesOf(parent)[..index]) + [Plain(text)] + old(NodesOf(parent)[index..])
  {
    NodesAt(parent);
    ghost var before := NodesOf(parent);
    parent.children := parent.children[..index] + [TextChild(Plain(text).delta)] + parent.children[index..];
    NodesAre(parent, before[..index] + [Plain(text)] + before[index..]);
  }

  method ClearAttributes(e: XmlElement)
    modifies e`attrs
    ensures e.attrs == map[]
  {
    var keys := e.attrs.Keys;
    while keys != {}
      invariant e.attrs.Keys == keys
      decreases |keys|
    {
      var key :| key in keys;
      e.attrs := e.attrs - {key};
      keys := keys - {key};
    }
  }

  /** Visits the child at an index and deletes it, replaces it, or edits it and walks on below it. */
  method GuardChild(env: Env, parent: XmlElement, index: nat) returns (nodes: nat, runs: nat)
    requires IsTree(parent) && index < |parent.children|
    modifies parent.Repr
    ensures IsTree(parent) && parent.Repr == old(parent.Repr) && parent.name == old(parent.name) && parent.attrs == old(parent.attrs)
    ensures NodesOf(parent) ==
            old(NodesOf(parent))[..index] + GuardNode(env, old(NodesOf(parent))[index]) + old(NodesOf(parent))[index + 1..]
    ensures nodes == StrippedNodes(env, [old(NodesOf(parent))[index]])
    ensures runs == StrippedRuns(env, [old(NodesOf(parent))[index]])
    decreases parent.Repr, 1
  {
    nodes, runs := 0, 0;
    ghost var before := NodesOf(parent);
    NodesAt(parent);
    assert [before[index]][1..] == [];
    var child := parent.children[index];
    if child.ElementChild? {
      if !IsKnownNode(child.element.name) {
        Delete(parent, index);
        nodes := 1;
      } else {
        nodes, runs := GuardElement(env, parent, index, child.element);
      }
    } else if child.TextChild? && !RunIsValid(env, child.delta) {
      var plainText := PlainText(child.delta);
      Delete(parent, index);
      InsertText(parent, index, plainText);
      runs := 1;
    } else {
      assert before == before[..index] + [before[index]] + before[index + 1..];
    }
  }

  /** Edits the element at an index and walks on below it; the rest of the parent is as it was. */
  method GuardElement(env: Env, parent: XmlElement, index: nat, child: XmlElement) returns (nodes: nat, runs: nat)
    requires IsTree(parent) && index < |parent.children| && parent.children[index] == ElementChild(child)
    requires IsKnownNode(child.name)
    modifies parent.Repr
    ensures IsTree(parent) && parent.Repr == old(parent.Repr) && parent.name == old(parent.name) && parent.attrs == old(parent.attrs)
    ensures var kept := if AttributesAreValid(env, old(child.name), old(child.attrs)) then old(child.attrs) else map[];
            && NodesOf(parent) ==
                 old(NodesOf(parent))[index := Element(old(child.name), kept, Guard(env, old(NodesOf(child))))]
            && nodes == (if AttributesAreValid(env, old(child.name), old(child.attrs)) then 0 else 1)
                        + StrippedNodes(env, old(NodesOf(child)))
            && runs == StrippedRuns(env, old(NodesOf(child)))
    decreases parent.Repr, 0
  {
    hide Guard, StrippedNodes, StrippedRuns, AttributesAreValid, IsKnownNode;
    nodes := 0;
    ghost var before := NodesOf(parent);
    NodesAt(parent);
    if !AttributesAreValid(env, child.name, child.attrs) {
      ClearAttributes(child);
      nodes := 1;
    }
    var below, runsBelow := Walk(env, child);
    nodes, runs := nodes + below, runsBelow;
    forall i | 0 <= i < |parent.children| && i != index && parent.children[i].ElementChild?
      ensures var d := parent.children[i].element;
              IsTree(d) && d.Repr == old(d.Repr) && d.name == old(d.name) && d.attrs == old(d.attrs) && NodesOf(d) == old(NodesOf(d))
    {
      assert parent.children[i].element.Repr !! child.Repr;
    }
    assert IsTree(parent);
    NodesAre(parent, before[index := Element(child.name, child.attrs, NodesOf(child))]);
  }

  /** Back to front, so that dropping a child never moves one still to be visited. */
  method Walk(env: Env, parent: XmlElement) returns (nodes: nat, runs: nat)
    requires IsTree(parent)
    modifies parent.Repr
    ensures IsTree(parent) && parent.Repr == old(parent.Repr) && parent.name == old(parent.name) && parent.attrs == old(parent.attrs)
    ensures NodesOf(parent) == Guard(env, old(NodesOf(parent)))
    ensures nodes == StrippedNodes(env, old(NodesOf(parent)))
    ensures runs == StrippedRuns(env, old(NodesOf(parent)))
    decreases parent.Repr, 2
  {
    nodes, runs := 0, 0;
    ghost var before := NodesOf(parent);
    var index := |parent.children|;
    assert before[..index] == before && before[index..] == [];
    GuardOfNothing(env);
    hide Guard, GuardNode, StrippedNodes, StrippedRuns, NodesOf, IsTree;
    while index > 0
      invariant index <= |before|
      invariant IsTree(parent) && parent.Repr == old(parent.Repr) && parent.name == old(parent.name) && parent.attrs == old(parent.attrs)
      invariant NodesOf(parent) == before[..index] + Guard(env, before[index..])
      invariant nodes == StrippedNodes(env, before[index..]) && runs == StrippedRuns(env, before[index..])
      decreases index
    {
      index := index - 1;
      GuardFromBack(env, before, index);
      SliceAround(before, index, Guard(env, before[index + 1..]));
      var n, r := GuardChild(env, parent, index);
      nodes, runs := nodes + n, runs + r;
      Regroup(before[..index], GuardNode(env, before[index]), Guard(env, before[index + 1..]));
    }
    assert before[0..] == before;
  }

  lemma SliceAround(before: Forest, index: nat, done: Forest)
    requires index < |before|
    ensures var now := before[..index + 1] + done;
            now[index] == before[index] && now[..index] == before[..index] && now[index + 1..] == done
  {
  }

  lemma Regroup(a: Forest, b: Forest, c: Forest)
    ensures a + b + c == a + (b + c)
  {
  }

  lemma GuardOfNothing(env: Env)
    ensures Guard(env, []) == [] && StrippedNodes(env, []) == 0 && StrippedRuns(env, []) == 0
  {
  }

  lemma GuardFromBack(env: Env, forest: Forest, index: nat)
    requires index < |forest|
    ensures Guard(env, forest[index..]) == GuardNode(env, forest[index]) + Guard(env, forest[index + 1..])
    ensures StrippedNodes(env, forest[index..]) == StrippedNodes(env, [forest[index]]) + StrippedNodes(env, forest[index + 1..])
    ensures StrippedRuns(env, forest[index..]) == StrippedRuns(env, [forest[index]]) + StrippedRuns(env, forest[index + 1..])
  {
  }

  /** The whole pass over a fragment. */
  method EnforceContentWhitelist(env: Env, fragment: XmlElement) returns (strippedNodes: nat, strippedRuns: nat, changed: bool)
    requires IsTree(fragment)
    modifies fragment.Repr
    ensures IsTree(fragment)
    ensures NodesOf(fragment) == Guard(env, old(NodesOf(fragment)))
    ensures IsStripped(env, NodesOf(fragment)) && Characters(NodesOf(fragment)) == Characters(old(NodesOf(fragment)))
    ensures strippedNodes == StrippedNodes(env, old(NodesOf(fragment)))
    ensures strippedRuns == StrippedRuns(env, old(NodesOf(fragment)))
    ensures !changed <==> IsAllowed(env, old(NodesOf(fragment)))
    ensures !changed ==> NodesOf(fragment) == old(NodesOf(fragment))
  {
    ghost var before := NodesOf(fragment);
    GuardStrips(env, before);
    GuardKeepsText(env, before);
    UncountedIffAllowed(env, before);
    strippedNodes, strippedRuns := Walk(env, fragment);
    changed := strippedNodes > 0 || strippedRuns > 0;
  }
}
