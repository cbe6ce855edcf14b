/** The save-boundary pass that strips whatever is not on the rich text whitelist out of a live tree. */
module ContentGuard {
  import opened RichText

  /** One run of characters with the marks laid over it. */
  datatype Segment = Segment(insert: string, marks: map<string, Value>)

  /** A fragment's children: elements, text runs, and any other shared type the guard does not look at. */
  datatype Node =
    | Element(name: string, attrs: Attributes, children: seq<Node>)
    | Run(delta: seq<Segment>)
    | Hook(name: string)

  type Forest = seq<Node>

  function PlainText(delta: seq<Segment>): string {
    if delta == [] then [] else delta[0].insert + PlainText(delta[1..])
  }

  /** A fresh text run holding these characters and no marks. */
  function Plain(text: string): Node {
    Run(if text == [] then [] else [Segment(text, map[])])
  }

  predicate SegmentIsValid(env: Env, segment: Segment) {
    forall key :: key in segment.marks ==> MarkIsValid(env, BaseMarkName(key), segment.marks[key])
  }

  predicate RunIsValid(env: Env, delta: seq<Segment>) {
    forall i :: 0 <= i < |delta| ==> SegmentIsValid(env, delta[i])
  }

  /** A mark is judged by its name, whatever suffix tells it apart. */
  lemma SuffixedMarksAreJudgedByName(env: Env, text: string, name: string, hash: string, value: Value)
    requires IsHash(hash) && forall i :: 0 <= i < |name| ==> !IsLineBreak(name[i])
    ensures SegmentIsValid(env, Segment(text, map[name + "--" + hash := value])) <==> MarkIsValid(env, name, value)
  {
    hide *;
    SuffixedMarkKeepsItsName(name, hash);
    OneMark(env, text, name + "--" + hash, value);
  }

  lemma OneMark(env: Env, text: string, key: string, value: Value)
    ensures SegmentIsValid(env, Segment(text, map[key := value])) <==> MarkIsValid(env, BaseMarkName(key), value)
  {
    hide BaseMarkName, MarkIsValid;
    assert key in map[key := value];
  }

  /** What becomes of one child: dropped, or kept with whatever is off the whitelist taken out. */
  function GuardNode(env: Env, node: Node): Forest
    decreases node
  {
    match node
    case Element(name, attrs, children) =>
      if !IsKnownNode(name) then []
      else [Element(name, if AttributesAreValid(env, name, attrs) then attrs else map[], Guard(env, children))]
    case Run(delta) => [if RunIsValid(env, delta) then node else Plain(PlainText(delta))]
    case Hook(_) => [node]
  }

  function Guard(env: Env, forest: Forest): Forest
    decreases forest
  {
    if forest == [] then [] else GuardNode(env, forest[0]) + Guard(env, forest[1..])
  }

  /** Elements deleted for their name or emptied of their attributes; nothing below a deleted one counts. */
  function StrippedNodes(env: Env, forest: Forest): nat
    decreases forest
  {
    if forest == [] then 0
    else
      (match forest[0]
       case Element(name, attrs, children) =>
         if !IsKnownNode(name) then 1
         else (if AttributesAreValid(env, name, attrs) then 0 else 1) + StrippedNodes(env, children)
       case Run(_) => 0
       case Hook(_) => 0)
      + StrippedNodes(env, forest[1..])
  }

  function StrippedRuns(env: Env, forest: Forest): nat
    decreases forest
  {
    if forest == [] then 0
    else
      (match forest[0]
       case Element(name, _, children) => if IsKnownNode(name) then StrippedRuns(env, children) else 0
       case Run(delta) => if RunIsValid(env, delta) then 0 else 1
       case Hook(_) => 0)
      + StrippedRuns(env, forest[1..])
  }

  /* ------------------------------- what a document promises ------------------------------- */

  /** Everything on the whitelist. */
  ghost predicate IsAllowed(env: Env, forest: Forest)
    decreases forest
  {
    forall i :: 0 <= i < |forest| ==>
      match forest[i]
      case Element(name, attrs, children) =>
        IsKnownNode(name) && AttributesAreValid(env, name, attrs) && IsAllowed(env, children)
      case Run(delta) => RunIsValid(env, delta)
      case Hook(_) => true
  }

  /** The same, but an element may also have no attributes where its type asks for some. */
  ghost predicate IsStripped(env: Env, forest: Forest)
    decreases forest
  {
    forall i :: 0 <= i < |forest| ==>
      match forest[i]
      case Element(name, attrs, children) =>
        IsKnownNode(name) && (AttributesAreValid(env, name, attrs) || attrs == map[]) && IsStripped(env, children)
      case Run(delta) => RunIsValid(env, delta)
      case Hook(_) => true
  }

  /** Elements left without the attributes their type requires. */
  function Bare(forest: Forest): nat
    decreases forest
  {
    if forest == [] then 0
    else
      (match forest[0]
       case Element(name, attrs, children) =>
         (if NeedsAttributes(name) && attrs == map[] then 1 else 0) + Bare(children)
       case Run(_) => 0
       case Hook(_) => 0)
      + Bare(forest[1..])
  }

  /** The characters of a run: each segment's after those of the segments in front of it. */
  function RunCharacters(delta: seq<Segment>): string {
    if delta == [] then [] else RunCharacters(delta[..|delta| - 1]) + delta[|delta| - 1].insert
  }

  /** Where a segment's characters begin. */
  function StartOf(delta: seq<Segment>, i: nat): nat
    requires i <= |delta|
  {
    if i == 0 then 0 else StartOf(delta, i - 1) + |delta[i - 1].insert|
  }

  /** The characters a reader sees, in order, skipping elements of unknown type. */
  function Characters(forest: Forest): string
    decreases forest
  {
    if forest == [] then [] else NodeCharacters(forest[0]) + Characters(forest[1..])
  }

  function NodeCharacters(node: Node): string
    decreases node
  {
    match node
    case Element(name, _, children) => if IsKnownNode(name) then Characters(children) else []
    case Run(delta) => RunCharacters(delta)
    case Hook(_) => []
  }

  /** The tree of known elements, text runs and hooks, spelled out in document order. */
  function Outline(forest: Forest): seq<string>
    decreases forest
  {
    if forest == [] then [] else NodeOutline(forest[0]) + Outline(forest[1..])
  }

  function NodeOutline(node: Node): seq<string>
    decreases node
  {
    match node
    case Element(name, _, children) => if IsKnownNode(name) then [name] + Outline(children) + ["/"] else []
    case Run(_) => ["#text"]
    case Hook(name) => ["#hook", name]
  }

  /* ------------------------------- joining and splitting ------------------------------- */

  lemma {:induction false} GuardJoins(env: Env, a: Forest, b: Forest)
    ensures Guard(env, a + b) == Guard(env, a) + Guard(env, b)
    ensures StrippedNodes(env, a + b) == StrippedNodes(env, a) + StrippedNodes(env, b)
    ensures StrippedRuns(env, a + b) == StrippedRuns(env, a) + StrippedRuns(env, b)
    decreases |a|
  {
    if a == [] {
      assert a + b == b;
    } else {
      assert (a + b)[1..] == a[1..] + b;
      GuardJoins(env, a[1..], b);
    }
  }

  lemma {:induction false} CharactersJoin(a: Forest, b: Forest)
    ensures Characters(a + b) == Characters(a) + Characters(b)
    ensures Outline(a + b) == Outline(a) + Outline(b)
    decreases |a|
  {
    if a == [] {
      assert a + b == b;
    } else {
      assert (a + b)[1..] == a[1..] + b;
      CharactersJoin(a[1..], b);
    }
  }

  lemma {:induction false} StartsAlike(a: seq<Segment>, b: seq<Segment>, i: nat)
    requires i <= |a| <= |b| && a == b[..|a|]
    ensures StartOf(a, i) == StartOf(b, i)
  {
    if i > 0 {
      StartsAlike(a, b, i - 1);
    }
  }

  /** Every character of every segment, in its place, and no others. */
  lemma {:induction false} CharacterStands(delta: seq<Segment>, i: nat, j: nat)
    requires i < |delta| && j < |delta[i].insert|
    ensures |RunCharacters(delta)| == StartOf(delta, |delta|)
    ensures StartOf(delta, i) + j < |RunCharacters(delta)|
    ensures RunCharacters(delta)[StartOf(delta, i) + j] == delta[i].insert[j]
    decreases |delta|
  {
    var last := |delta| - 1;
    var front := delta[..last];
    RunLength(front);
    StartsAlike(front, delta, last);
    StartsAlike(front, delta, i);
    if i < last {
      CharacterStands(front, i, j);
    }
  }

  lemma {:induction false} RunLength(delta: seq<Segment>)
    ensures |RunCharacters(delta)| == StartOf(delta, |delta|)
    decreases |delta|
  {
    if delta != [] {
      var front := delta[..|delta| - 1];
      RunLength(front);
      StartsAlike(front, delta, |delta| - 1);
    }
  }

  /** What the guard takes for a run's text is all of its characters. */
  lemma {:induction false} PlainTextIsTheRun(delta: seq<Segment>)
    ensures PlainText(delta) == RunCharacters(delta)
    decreases |delta|
  {
    if |delta| == 1 {
      assert delta[1..] == [] && delta[..0] == [];
    } else if |delta| > 1 {
      var last := |delta| - 1;
      PlainTextIsTheRun(delta[1..]);
      PlainTextIsTheRun(delta[..last]);
      PlainTextIsTheRun(delta[1..last]);
      assert delta[1..][..last - 1] == delta[1..last] && delta[..last][1..] == delta[1..last];
    }
  }

  lemma PlainIsValid(env: Env, text: string)
    ensures RunIsValid(env, Plain(text).delta) && RunCharacters(Plain(text).delta) == text
  {
    assert [Segment(text, map[])][..0] == [];
  }

  /* ------------------------------- what the guard guarantees ------------------------------- */

  /** Whatever came in, only whitelisted names, marks and attributes (or no attributes) come out. */
  lemma {:induction false} GuardStrips(env: Env, forest: Forest)
    ensures IsStripped(env, Guard(env, forest))
    decreases forest
  {
    if forest != [] {
      GuardStrips(env, forest[1..]);
      match forest[0]
      case Element(_, _, children) => GuardStrips(env, children);
      case Run(delta) => PlainIsValid(env, PlainText(delta));
      case Hook(_) =>
    }
  }

  /** Characters and elements that survive do so in order; nothing is added. */
  lemma {:induction false} GuardKeepsText(env: Env, forest: Forest)
    ensures Characters(Guard(env, forest)) == Characters(forest)
    ensures Outline(Guard(env, forest)) == Outline(forest)
    decreases forest
  {
    if forest != [] {
      var node := forest[0];
      GuardKeepsText(env, forest[1..]);
      CharactersJoin(GuardNode(env, node), Guard(env, forest[1..]));
      match node
      case Element(_, _, children) => GuardKeepsText(env, children);
      case Run(delta) =>
        PlainIsValid(env, PlainText(delta));
        PlainTextIsTheRun(delta);
      case Hook(_) =>
    }
  }

  /** Both counts are zero exactly for a document on the whitelist, which then comes back as it was. */
  lemma {:induction false} UncountedIffAllowed(env: Env, forest: Forest)
    ensures StrippedNodes(env, forest) == 0 && StrippedRuns(env, forest) == 0 <==> IsAllowed(env, forest)
    ensures IsAllowed(env, forest) ==> Guard(env, forest) == forest
    decreases forest
  {
    if forest != [] {
      var rest := forest[1..];
      UncountedIffAllowed(env, rest);
      assert IsAllowed(env, forest) ==> IsAllowed(env, rest);
      assert forest == [forest[0]] + rest;
      match forest[0]
      case Element(_, _, children) => UncountedIffAllowed(env, children);
      case Run(_) =>
      case Hook(_) =>
    }
  }

  /** A stripped document is not changed again; what it is still counted for is exactly its bare elements. */
  lemma {:induction false} StrippedIsStable(env: Env, forest: Forest)
    requires IsStripped(env, forest)
    ensures Guard(env, forest) == forest
    ensures StrippedRuns(env, forest) == 0 && StrippedNodes(env, forest) == Bare(forest)
    decreases forest
  {
    if forest != [] {
      StrippedIsStable(env, forest[1..]);
      match forest[0]
      case Element(name, attrs, children) =>
        StrippedIsStable(env, children);
        EmptyAttributesAreValidIff(env, name);
      case Run(_) =>
      case Hook(_) =>
    }
  }

  /**
   * A second pass leaves the tree as the first left it, and reports no change exactly when the first
   * pass left no element without attributes its type requires.
   */
  lemma SecondPass(env: Env, forest: Forest)
    ensures var once := Guard(env, forest);
            && Guard(env, once) == once
            && StrippedRuns(env, once) == 0
            && StrippedNodes(env, once) == Bare(once)
  {
    GuardStrips(env, forest);
    StrippedIsStable(env, Guard(env, forest));
  }

  /** A heading whose level is refused is emptied once and reported on every pass after. */
  lemma EmptiedHeadingIsReportedForever(env: Env)
    ensures var once := Guard(env, [Element("heading", map["level" := Whole(7)], [])]);
            once == [Element("heading", map[], [])] && Guard(env, once) == once && StrippedNodes(env, once) == 1
  {
  }
}
