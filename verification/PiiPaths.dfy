/** What compiled PII rules mean: the paths through the rule graph, the leaf rules they lead to, and the
    metadata they give to them. */
module PiiPaths {
  import opened Wrappers
  import opened PiiRules
  import LazyCells

  type Path = seq<RuleId>

  function Last<T>(s: seq<T>): T
    requires s != []
  {
    s[|s| - 1]
  }

  /** A path of references that ends in a leaf rule. */
  ghost predicate IsPath(config: PiiConfig, path: Path) {
    && path != []
    && if |path| == 1 then IsLeaf(config, path[0])
       else path[1] in Children(config, path[0]) && IsPath(config, path[1..])
  }

  /** All paths from a rule to a leaf, in depth-first order. */
  ghost function Paths(config: PiiConfig, rank: RuleId -> nat, id: RuleId): seq<Path>
    requires Ranked(config, rank)
    decreases rank(id)
  {
    if !Known(config, id) then []
    else if IsLeaf(config, id) then [[id]]
    else
      PeakBelow(Children(config, id), rank, rank(id));
      Extend(id, PathsOf(config, rank, Children(config, id)))
  }

  ghost function PathsOf(config: PiiConfig, rank: RuleId -> nat, ids: seq<RuleId>): seq<Path>
    requires Ranked(config, rank)
    decreases Peak(ids, rank), |ids|
  {
    if ids == [] then [] else
      var n := |ids| - 1;
      PathsOf(config, rank, ids[..n]) + Paths(config, rank, ids[n])
  }

  ghost function Extend(id: RuleId, paths: seq<Path>): (r: seq<Path>)
    ensures |r| == |paths| && forall i :: 0 <= i < |r| ==> r[i] == [id] + paths[i]
  {
    seq(|paths|, i requires 0 <= i < |paths| => [id] + paths[i])
  }

  // ----- The enumeration is complete ---------------------------------------------------------------

  lemma {:induction false} PathsAreComplete(config: PiiConfig, rank: RuleId -> nat, id: RuleId, path: Path)
    requires Ranked(config, rank)
    ensures path in Paths(config, rank, id) <==> IsPath(config, path) && path[0] == id
    decreases rank(id)
  {
    if Known(config, id) && !IsLeaf(config, id) {
      PeakBelow(Children(config, id), rank, rank(id));
      var inner := PathsOf(config, rank, Children(config, id));
      if path != [] {
        PathsOfAreComplete(config, rank, Children(config, id), path[1..]);
        ExtendMember(id, inner, path);
      }
    } else if |path| == 1 {
      assert path == [path[0]];
    }
  }

  lemma {:induction false} PathsOfAreComplete(config: PiiConfig, rank: RuleId -> nat, ids: seq<RuleId>, path: Path)
    requires Ranked(config, rank)
    ensures path in PathsOf(config, rank, ids) <==> IsPath(config, path) && path[0] in ids
    decreases Peak(ids, rank), |ids|
  {
    if ids != [] {
      var n := |ids| - 1;
      PathsOfAreComplete(config, rank, ids[..n], path);
      PathsAreComplete(config, rank, ids[n], path);
      assert ids == ids[..n] + [ids[n]];
    }
  }

  lemma ExtendMember(id: RuleId, paths: seq<Path>, path: Path)
    requires path != []
    ensures path in Extend(id, paths) <==> path[0] == id && path[1..] in paths
  {
    if path[0] == id && path[1..] in paths {
      var i :| 0 <= i < |paths| && paths[i] == path[1..];
      assert Extend(id, paths)[i] == [id] + path[1..] == path;
    }
    if path in Extend(id, paths) {
      var i :| 0 <= i < |paths| && Extend(id, paths)[i] == path;
      assert path == [id] + paths[i];
      assert path[1..] == paths[i];
    }
  }

  // ----- The metadata of a path --------------------------------------------------------------------

  ghost predicate AllKnown(config: PiiConfig, path: Path) {
    forall i :: 0 <= i < |path| ==> Known(config, path[i])
  }

  /** The reference to the last rule of a path, as inherited step by step from the rules that hide it. */
  ghost function RefAt(config: PiiConfig, path: Path): (r: RuleRef)
    requires path != [] && AllKnown(config, path)
    ensures r.id == Last(path) && r.ty == Spec(config, Last(path)).ty
    decreases |path|, 0
  {
    var own := GetRule(config, Last(path)).value;
    match ParentAt(config, path[..|path| - 1])
    case Some(parent) => own.ForParent(parent)
    case None => own
  }

  /** The parent that a path passes on to the next rule. */
  ghost function ParentAt(config: PiiConfig, path: Path): Option<RuleRef>
    requires AllKnown(config, path)
    decreases |path|, 1
  {
    if path != [] && Hides(config, Last(path)) then Some(RefAt(config, path)) else None
  }

  /** Where the longest unbroken run of hiding rules that ends at the last rule of the path starts. */
  ghost function RunStart(config: PiiConfig, path: Path): (h: nat)
    requires path != []
    ensures h < |path|
    ensures forall i :: h <= i < |path| - 1 ==> Hides(config, path[i])
    ensures h > 0 ==> !Hides(config, path[h - 1])
  {
    var n := |path| - 1;
    if n == 0 || !Hides(config, path[n - 1]) then n else RunStart(config, path[..n])
  }

  /** The first redaction other than the default one. */
  ghost function FirstRedaction(config: PiiConfig, path: Path): Redaction
    requires AllKnown(config, path)
  {
    if path == [] then Default
    else if Spec(config, path[0]).redaction != Default then Spec(config, path[0]).redaction
    else FirstRedaction(config, path[1..])
  }

  lemma {:induction false} FirstRedactionSnoc(config: PiiConfig, path: Path, id: RuleId)
    requires AllKnown(config, path) && Known(config, id)
    ensures AllKnown(config, path + [id])
    ensures FirstRedaction(config, path + [id]) ==
              if FirstRedaction(config, path) != Default then FirstRedaction(config, path)
              else Spec(config, id).redaction
  {
    if path != [] {
      assert (path + [id])[1..] == path[1..] + [id];
      FirstRedactionSnoc(config, path[1..], id);
    } else {
      assert (path + [id])[1..] == [];
    }
  }

  /** A hidden rule takes its origin from the rule that hides it, and its redaction if that is not the default. */
  lemma RefStep(config: PiiConfig, path: Path)
    requires path != [] && AllKnown(config, path)
    ensures var n := |path| - 1;
            var r, own := RefAt(config, path), Spec(config, path[n]).redaction;
            if n > 0 && Hides(config, path[n - 1])
            then var p := RefAt(config, path[..n]);
                 r.origin == p.origin && r.redaction == if p.redaction == Default then own else p.redaction
            else r.origin == path[n] && r.redaction == own
  {
  }

  lemma FirstRedactionOfRun(config: PiiConfig, path: Path, h: nat)
    requires h < |path| && AllKnown(config, path)
    ensures var n := |path| - 1;
            var before, own := FirstRedaction(config, path[..n][h..]), Spec(config, path[n]).redaction;
            FirstRedaction(config, path[h..]) == if before != Default then before else own
  {
    var n := |path| - 1;
    assert path[h..] == path[..n][h..] + [path[n]];
    FirstRedactionSnoc(config, path[..n][h..], path[n]);
  }

  /** A rule is reported under the outermost rule of the run that hides it, and redacted as the first rule
      of that run says that does not leave it to the default. */
  lemma {:induction false} RefOfRun(config: PiiConfig, path: Path)
    requires path != [] && AllKnown(config, path)
    ensures RefAt(config, path).origin == path[RunStart(config, path)]
    ensures RefAt(config, path).redaction == FirstRedaction(config, path[RunStart(config, path)..])
  {
    var n := |path| - 1;
    RefStep(config, path);
    FirstRedactionOfRun(config, path, RunStart(config, path));
    if n > 0 && Hides(config, path[n - 1]) {
      RefOfRun(config, path[..n]);
    }
  }

  // ----- Collecting is a fold over all paths ---------------------------------------------------------

  /** Insertion into a set does not replace an equal element. */
  ghost function InsertAll(rules: RuleSet, refs: seq<RuleRef>): RuleSet {
    if refs == [] then rules else
      var init, last := InsertAll(rules, refs[..|refs| - 1]), Last(refs);
      if last.id in init then init else init[last.id := last]
  }

  lemma {:induction false} InsertAllConcat(rules: RuleSet, a: seq<RuleRef>, b: seq<RuleRef>)
    ensures InsertAll(rules, a + b) == InsertAll(InsertAll(rules, a), b)
  {
    if b == [] {
      assert a + b == a;
    } else {
      assert (a + b)[..|a + b| - 1] == a + b[..|b| - 1];
      InsertAllConcat(rules, a, b[..|b| - 1]);
    }
  }

  ghost predicate AllPathsKnown(config: PiiConfig, paths: seq<Path>) {
    forall i :: 0 <= i < |paths| ==> paths[i] != [] && AllKnown(config, paths[i])
  }

  /** The references at the ends of paths that continue a given path. */
  ghost function Refs(config: PiiConfig, before: Path, paths: seq<Path>): (r: seq<RuleRef>)
    requires AllKnown(config, before) && AllPathsKnown(config, paths)
    ensures |r| == |paths| && forall i :: 0 <= i < |r| ==> r[i] == RefAt(config, before + paths[i])
  {
    seq(|paths|, i requires 0 <= i < |paths| => RefAt(config, before + paths[i]))
  }

  lemma {:induction false} PathIsKnown(config: PiiConfig, path: Path)
    requires IsPath(config, path)
    ensures AllKnown(config, path)
  {
    if |path| > 1 {
      PathIsKnown(config, path[1..]);
    }
  }

  lemma PathsKnown(config: PiiConfig, rank: RuleId -> nat, id: RuleId)
    requires Ranked(config, rank)
    ensures AllPathsKnown(config, Paths(config, rank, id))
  {
    var paths := Paths(config, rank, id);
    forall i | 0 <= i < |paths|
      ensures paths[i] != [] && AllKnown(config, paths[i])
    {
      PathsAreComplete(config, rank, id, paths[i]);
      PathIsKnown(config, paths[i]);
    }
  }

  lemma PathsOfKnown(config: PiiConfig, rank: RuleId -> nat, ids: seq<RuleId>)
    requires Ranked(config, rank)
    ensures AllPathsKnown(config, PathsOf(config, rank, ids))
  {
    var paths := PathsOf(config, rank, ids);
    forall i | 0 <= i < |paths|
      ensures paths[i] != [] && AllKnown(config, paths[i])
    {
      PathsOfAreComplete(config, rank, ids, paths[i]);
      PathIsKnown(config, paths[i]);
    }
  }

  ghost predicate OnlyLeaves(config: PiiConfig, rules: RuleSet) {
    forall id :: id in rules ==> IsLeaf(config, id)
  }

  lemma {:induction false} CollectKeepsLeaves(config: PiiConfig, rank: RuleId -> nat, rules: RuleSet, id: RuleId,
                                             parent: Option<RuleRef>)
    requires Ranked(config, rank) && OnlyLeaves(config, rules)
    ensures OnlyLeaves(config, Collect(config, rank, rules, id, parent))
    decreases rank(id)
  {
    if Known(config, id) && !IsLeaf(config, id) && id !in rules {
      var found := GetRule(config, id).value;
      var rule := if parent.Some? then found.ForParent(parent.value) else found;
      PeakBelow(Children(config, id), rank, rank(id));
      CollectAllKeepsLeaves(config, rank, rules, Children(config, id), if rule.ty.hideInner then Some(rule) else None);
    }
  }

  lemma {:induction false} CollectAllKeepsLeaves(config: PiiConfig, rank: RuleId -> nat, rules: RuleSet,
                                                ids: seq<RuleId>, parent: Option<RuleRef>)
    requires Ranked(config, rank) && OnlyLeaves(config, rules)
    ensures OnlyLeaves(config, CollectAll(config, rank, rules, ids, parent))
    decreases Peak(ids, rank), |ids|
  {
    if ids != [] {
      var n := |ids| - 1;
      CollectAllKeepsLeaves(config, rank, rules, ids[..n], parent);
      CollectKeepsLeaves(config, rank, CollectAll(config, rank, rules, ids[..n], parent), ids[n], parent);
    }
  }

  /** Collecting a leaf inserts the reference at the end of the path to it. */
  lemma CollectLeaf(config: PiiConfig, rank: RuleId -> nat, rules: RuleSet, id: RuleId, before: Path)
    requires Ranked(config, rank) && AllKnown(config, before + [id]) && AllKnown(config, before) && IsLeaf(config, id)
    ensures Collect(config, rank, rules, id, ParentAt(config, before)) ==
              InsertAll(rules, [RefAt(config, before + [id])])
  {
    var path := before + [id];
    assert path[..|path| - 1] == before;
    var refs := [RefAt(config, path)];
    assert refs[..0] == [];
    assert InsertAll(rules, refs[..0]) == rules;
  }

  /** Collecting a group, which is never collected itself, collects what it refers to. */
  lemma CollectGroup(config: PiiConfig, rank: RuleId -> nat, rules: RuleSet, id: RuleId, before: Path)
    requires Ranked(config, rank) && AllKnown(config, before + [id]) && AllKnown(config, before)
    requires Known(config, id) && !IsLeaf(config, id) && id !in rules
    ensures Collect(config, rank, rules, id, ParentAt(config, before)) ==
              CollectAll(config, rank, rules, Children(config, id), ParentAt(config, before + [id]))
  {
    var path := before + [id];
    assert path[..|path| - 1] == before;
  }

  /** Despite its pruning, collecting a rule below a path inserts the references at the ends of all
      continuations of the path, in depth-first order, where the first reference to a rule wins. */
  lemma {:induction false} CollectFoldsPaths(config: PiiConfig, rank: RuleId -> nat, rules: RuleSet, id: RuleId, before: Path)
    requires Ranked(config, rank) && AllKnown(config, before) && OnlyLeaves(config, rules)
    ensures AllPathsKnown(config, Paths(config, rank, id))
    ensures Collect(config, rank, rules, id, ParentAt(config, before)) ==
              InsertAll(rules, Refs(config, before, Paths(config, rank, id)))
    decreases rank(id)
  {
    PathsKnown(config, rank, id);
    if Known(config, id) {
      var path := before + [id];
      if IsLeaf(config, id) {
        CollectLeaf(config, rank, rules, id, before);
        assert Refs(config, before, [[id]]) == [RefAt(config, path)];
      } else {
        var inner := Children(config, id);
        PeakBelow(inner, rank, rank(id));
        assert id !in rules;
        CollectGroup(config, rank, rules, id, before);
        CollectAllFoldsPaths(config, rank, rules, inner, path);
        RefsExtend(config, before, id, PathsOf(config, rank, inner));
      }
    }
  }

  lemma RefsConcat(config: PiiConfig, before: Path, a: seq<Path>, b: seq<Path>)
    requires AllKnown(config, before) && AllPathsKnown(config, a) && AllPathsKnown(config, b)
    ensures AllPathsKnown(config, a + b)
    ensures Refs(config, before, a + b) == Refs(config, before, a) + Refs(config, before, b)
  {
  }

  lemma RefsExtend(config: PiiConfig, before: Path, id: RuleId, paths: seq<Path>)
    requires AllKnown(config, before) && Known(config, id) && AllPathsKnown(config, paths)
    requires AllPathsKnown(config, Extend(id, paths))
    ensures AllKnown(config, before + [id])
    ensures Refs(config, before, Extend(id, paths)) == Refs(config, before + [id], paths)
  {
    forall i | 0 <= i < |paths|
      ensures before + Extend(id, paths)[i] == before + [id] + paths[i]
    {
      assert before + ([id] + paths[i]) == before + [id] + paths[i];
    }
  }

  lemma {:induction false} CollectAllFoldsPaths(config: PiiConfig, rank: RuleId -> nat, rules: RuleSet, ids: seq<RuleId>, before: Path)
    requires Ranked(config, rank) && AllKnown(config, before) && OnlyLeaves(config, rules)
    ensures AllPathsKnown(config, PathsOf(config, rank, ids))
    ensures CollectAll(config, rank, rules, ids, ParentAt(config, before)) ==
              InsertAll(rules, Refs(config, before, PathsOf(config, rank, ids)))
    decreases Peak(ids, rank), |ids|
  {
    PathsOfKnown(config, rank, ids);
    if ids != [] {
      var n := |ids| - 1;
      CollectAllFoldsPaths(config, rank, rules, ids[..n], before);
      var first := CollectAll(config, rank, rules, ids[..n], ParentAt(config, before));
      CollectAllKeepsLeaves(config, rank, rules, ids[..n], ParentAt(config, before));
      CollectFoldsPaths(config, rank, first, ids[n], before);
      var a, b := PathsOf(config, rank, ids[..n]), Paths(config, rank, ids[n]);
      RefsConcat(config, before, a, b);
      InsertAllConcat(rules, Refs(config, before, a), Refs(config, before, b));
    }
  }

  // ----- What is compiled ------------------------------------------------------------------------------

  /** The position of the first reference to a rule, or the number of references. */
  ghost function FirstIndex(refs: seq<RuleRef>, id: RuleId): (i: nat)
    ensures i <= |refs| && (i < |refs| ==> refs[i].id == id)
    ensures forall j :: 0 <= j < i ==> refs[j].id != id
  {
    if refs == [] then 0 else
      var n := |refs| - 1;
      var i := FirstIndex(refs[..n], id);
      if i < n then i else if refs[n].id == id then n else n + 1
  }

  lemma {:induction false} InsertAllLookup(refs: seq<RuleRef>, id: RuleId)
    ensures id in InsertAll(map[], refs) <==> FirstIndex(refs, id) < |refs|
    ensures id in InsertAll(map[], refs) ==> InsertAll(map[], refs)[id] == refs[FirstIndex(refs, id)]
  {
    if refs != [] {
      InsertAllLookup(refs[..|refs| - 1], id);
    }
  }

  /** An application compiles to the references at the ends of its paths, first one first. */
  lemma CompiledRefs(config: PiiConfig, rank: RuleId -> nat, ids: seq<RuleId>) returns (refs: seq<RuleRef>)
    requires Ranked(config, rank)
    ensures CollectAll(config, rank, map[], ids, None) == InsertAll(map[], refs)
    ensures AllPathsKnown(config, PathsOf(config, rank, ids)) && |refs| == |PathsOf(config, rank, ids)|
    ensures forall i :: 0 <= i < |refs| ==> refs[i] == RefAt(config, PathsOf(config, rank, ids)[i])
  {
    CollectAllFoldsPaths(config, rank, map[], ids, []);
    var paths := PathsOf(config, rank, ids);
    refs := Refs(config, [], paths);
    assert forall i :: 0 <= i < |paths| ==> [] + paths[i] == paths[i];
  }

  /** Some path leads from a rule of the list to the leaf. */
  ghost predicate Reachable(config: PiiConfig, ids: seq<RuleId>, leaf: RuleId) {
    exists path :: IsPath(config, path) && path[0] in ids && Last(path) == leaf
  }

  /** For an application, exactly the leaf rules are compiled that can be reached from its list. */
  lemma CompiledAreReachable(config: PiiConfig, rank: RuleId -> nat, ids: seq<RuleId>, leaf: RuleId)
    requires Ranked(config, rank)
    ensures leaf in CollectAll(config, rank, map[], ids, None) <==> Reachable(config, ids, leaf)
  {
    var paths := PathsOf(config, rank, ids);
    var refs := CompiledRefs(config, rank, ids);
    InsertAllLookup(refs, leaf);
    var i := FirstIndex(refs, leaf);
    if i < |refs| {
      PathsOfAreComplete(config, rank, ids, paths[i]);
    }
    if Reachable(config, ids, leaf) {
      var path :| IsPath(config, path) && path[0] in ids && Last(path) == leaf;
      PathsOfAreComplete(config, rank, ids, path);
      var k :| 0 <= k < |paths| && paths[k] == path;
      assert refs[k].id == leaf;
    }
  }

  /** Every application is compiled, in order, for its own selector, to just the leaf rules it reaches. */
  lemma ApplicationsAreCompiled(config: PiiConfig, rank: RuleId -> nat, i: nat, leaf: RuleId)
    requires Ranked(config, rank) && i < |config.applications|
    ensures |Compile(config, rank)| == |config.applications|
    ensures Compile(config, rank)[i].0 == config.applications[i].0
    ensures leaf in Compile(config, rank)[i].1 <==> Reachable(config, config.applications[i].1, leaf)
  {
    CompiledAreReachable(config, rank, config.applications[i].1, leaf);
  }

  lemma OrderDoesNotMatter(config: PiiConfig, rank: RuleId -> nat, ids: seq<RuleId>, others: seq<RuleId>)
    requires Ranked(config, rank) && forall id :: id in ids <==> id in others
    ensures CollectAll(config, rank, map[], ids, None).Keys == CollectAll(config, rank, map[], others, None).Keys
  {
    forall leaf
      ensures leaf in CollectAll(config, rank, map[], ids, None) <==> leaf in CollectAll(config, rank, map[], others, None)
    {
      CompiledAreReachable(config, rank, ids, leaf);
      CompiledAreReachable(config, rank, others, leaf);
    }
  }

  /** The path is the first one, depth first, that leads from the list to its leaf. */
  ghost predicate FirstPath(paths: seq<Path>, i: nat) {
    && i < |paths| && paths[i] != []
    && forall j :: 0 <= j < i ==> paths[j] != [] && Last(paths[j]) != Last(paths[i])
  }

  /** A compiled rule carries the metadata of the first path to it: it is reported under the outermost rule
      of the run of hiding rules that ends at it, with the first redaction of that run that is not the default. */
  lemma CompiledMetadata(config: PiiConfig, rank: RuleId -> nat, ids: seq<RuleId>, i: nat)
    requires Ranked(config, rank) && FirstPath(PathsOf(config, rank, ids), i)
    ensures var path := PathsOf(config, rank, ids)[i];
            var h := RunStart(config, path);
            && AllKnown(config, path)
            && Last(path) in CollectAll(config, rank, map[], ids, None)
            && CollectAll(config, rank, map[], ids, None)[Last(path)] ==
               RuleRef(Last(path), path[h], Spec(config, Last(path)).ty, FirstRedaction(config, path[h..]))
  {
    var paths := PathsOf(config, rank, ids);
    var refs := CompiledRefs(config, rank, ids);
    InsertAllLookup(refs, Last(paths[i]));
    assert FirstIndex(refs, Last(paths[i])) == i;
    RefOfRun(config, paths[i]);
  }

  /** Every compiled rule has such a first path. */
  lemma CompiledHasPath(config: PiiConfig, rank: RuleId -> nat, ids: seq<RuleId>, leaf: RuleId) returns (i: nat)
    requires Ranked(config, rank) && leaf in CollectAll(config, rank, map[], ids, None)
    ensures FirstPath(PathsOf(config, rank, ids), i) && Last(PathsOf(config, rank, ids)[i]) == leaf
  {
    var paths := PathsOf(config, rank, ids);
    var refs := CompiledRefs(config, rank, ids);
    InsertAllLookup(refs, leaf);
    i := FirstIndex(refs, leaf);
    forall j | 0 <= j < |paths|
      ensures paths[j] != []
    {
      PathsOfAreComplete(config, rank, ids, paths[j]);
    }
    assert refs[i].id == Last(paths[i]);
    assert forall j :: 0 <= j < i ==> refs[j].id == Last(paths[j]);
  }

  // ----- Custom and builtin rules --------------------------------------------------------------------

  /** All rules, where custom rules replace builtin rules of the same id. */
  function AllRules(config: PiiConfig): map<RuleId, RuleSpec> { config.builtin + config.rules }

  /** What a rule refers to and whether it hides it, as the maps say. */
  lemma RulesFromMaps(config: PiiConfig, id: RuleId)
    ensures Known(config, id) <==> id in AllRules(config)
    ensures id in AllRules(config) ==>
              && Spec(config, id) == AllRules(config)[id]
              && match AllRules(config)[id].ty
                 case Multiple(rules, hides) =>
                   Children(config, id) == rules && !IsLeaf(config, id) && Hides(config, id) == hides
                 case Alias(rule, hides) =>
                   Children(config, id) == [rule] && !IsLeaf(config, id) && Hides(config, id) == hides
                 case Matcher(_) => IsLeaf(config, id) && !Hides(config, id)
    ensures id !in AllRules(config) ==> Children(config, id) == [] && !IsLeaf(config, id) && !Hides(config, id)
  {
  }

  /** Paths are listed depth first: those through an earlier rule of a group come before those through a later one. */
  lemma PathsInOrder(config: PiiConfig, rank: RuleId -> nat, id: RuleId)
    requires Ranked(config, rank) && id in AllRules(config)
    ensures AllRules(config)[id].ty.Multiple? ==>
              Paths(config, rank, id) == Extend(id, PathsOf(config, rank, AllRules(config)[id].ty.rules))
    ensures AllRules(config)[id].ty.Alias? ==>
              Paths(config, rank, id) == Extend(id, Paths(config, rank, AllRules(config)[id].ty.rule))
    ensures AllRules(config)[id].ty.Matcher? ==> Paths(config, rank, id) == [[id]]
  {
    if AllRules(config)[id].ty.Alias? {
      var rule := AllRules(config)[id].ty.rule;
      PathsOfConcat(config, rank, [], [rule]);
      assert PathsOf(config, rank, [rule]) == PathsOf(config, rank, [rule][..0]) + Paths(config, rank, rule);
    }
  }

  /** The paths from a list are those from its parts, in order. */
  lemma {:induction false} PathsOfConcat(config: PiiConfig, rank: RuleId -> nat, a: seq<RuleId>, b: seq<RuleId>)
    requires Ranked(config, rank)
    ensures PathsOf(config, rank, a + b) == PathsOf(config, rank, a) + PathsOf(config, rank, b)
    decreases |b|
  {
    if b == [] {
      assert a + b == a;
    } else {
      assert (a + b)[..|a + b| - 1] == a + b[..|b| - 1];
      PathsOfConcat(config, rank, a, b[..|b| - 1]);
    }
  }

  lemma SameRules(config: PiiConfig, other: PiiConfig, id: RuleId)
    requires AllRules(config) == AllRules(other)
    ensures Known(config, id) == Known(other, id) && Children(config, id) == Children(other, id)
    ensures Known(config, id) ==> Spec(config, id) == Spec(other, id)
  {
    RulesFromMaps(config, id);
    RulesFromMaps(other, id);
  }

  lemma SameRanks(config: PiiConfig, other: PiiConfig, rank: RuleId -> nat)
    requires AllRules(config) == AllRules(other) && Ranked(config, rank)
    ensures Ranked(other, rank)
  {
    forall id, i | 0 <= i < |Children(other, id)|
      ensures rank(Children(other, id)[i]) < rank(id)
    {
      SameRules(config, other, id);
    }
  }

  lemma {:induction false} SameCollect(config: PiiConfig, other: PiiConfig, rank: RuleId -> nat, rules: RuleSet, id: RuleId,
                                      parent: Option<RuleRef>)
    requires AllRules(config) == AllRules(other) && Ranked(config, rank) && Ranked(other, rank)
    ensures Collect(config, rank, rules, id, parent) == Collect(other, rank, rules, id, parent)
    decreases rank(id)
  {
    SameRules(config, other, id);
    if Known(config, id) && !IsLeaf(config, id) && id !in rules {
      var found := GetRule(config, id).value;
      var rule := if parent.Some? then found.ForParent(parent.value) else found;
      PeakBelow(Children(config, id), rank, rank(id));
      SameCollectAll(config, other, rank, rules, Children(config, id), if rule.ty.hideInner then Some(rule) else None);
    }
  }

  lemma {:induction false} SameCollectAll(config: PiiConfig, other: PiiConfig, rank: RuleId -> nat, rules: RuleSet,
                                         ids: seq<RuleId>, parent: Option<RuleRef>)
    requires AllRules(config) == AllRules(other) && Ranked(config, rank) && Ranked(other, rank)
    ensures CollectAll(config, rank, rules, ids, parent) == CollectAll(other, rank, rules, ids, parent)
    decreases Peak(ids, rank), |ids|
  {
    if ids != [] {
      var n := |ids| - 1;
      SameCollectAll(config, other, rank, rules, ids[..n], parent);
      SameCollect(config, other, rank, CollectAll(config, rank, rules, ids[..n], parent), ids[n], parent);
    }
  }

  /** Custom rules shadow builtin rules: configurations compile to the same if they have the same applications and the
      same rules once every builtin rule is replaced by the custom rule of the same id. */
  lemma CustomRulesShadow(config: PiiConfig, other: PiiConfig, rank: RuleId -> nat)
    requires AllRules(config) == AllRules(other) && config.applications == other.applications && Ranked(config, rank)
    ensures Ranked(other, rank) && Compile(config, rank) == Compile(other, rank)
  {
    SameRanks(config, other, rank);
    forall i | 0 <= i < |config.applications|
      ensures Compile(config, rank)[i] == Compile(other, rank)[i]
    {
      SameCollectAll(config, other, rank, map[], config.applications[i].1, None);
    }
  }

  /** A compiled rule has the type that the custom rules say, or else the builtin ones. */
  lemma CompiledType(config: PiiConfig, rank: RuleId -> nat, ids: seq<RuleId>, leaf: RuleId)
    requires Ranked(config, rank) && leaf in CollectAll(config, rank, map[], ids, None)
    ensures leaf in config.rules ==> CollectAll(config, rank, map[], ids, None)[leaf].ty == config.rules[leaf].ty
    ensures leaf !in config.rules ==>
              leaf in config.builtin && CollectAll(config, rank, map[], ids, None)[leaf].ty == config.builtin[leaf].ty
    ensures CollectAll(config, rank, map[], ids, None)[leaf].ty.Matcher?
  {
    var i := CompiledHasPath(config, rank, ids, leaf);
    CompiledMetadata(config, rank, ids, i);
    RulesFromMaps(config, leaf);
    CollectAllKeepsLeaves(config, rank, map[], ids, None);
  }

  /** However many threads ask for the compiled config at once, each gets what compiling it uncached gives. */
  lemma CachedIsUncached(config: PiiConfig, rank: RuleId -> nat, schedule: seq<LazyCells.Call>, c: LazyCells.Call)
    requires Ranked(config, rank)
    requires var s := LazyCells.Run(schedule, (_: LazyCells.Call) => Compile(config, rank));
             c in s.calls && LazyCells.Finished(s.calls[c])
    ensures var s := LazyCells.Run(schedule, (_: LazyCells.Call) => Compile(config, rank));
            (s.calls[c].Borrowed? || s.calls[c].Owned?) && s.calls[c].result == Compile(config, rank)
  {
    LazyCells.AgreeingClosures(schedule, (_: LazyCells.Call) => Compile(config, rank), Compile(config, rank), c);
  }
}
