/** Compilation of PII rules (relay-general/src/pii/compiledconfig.rs): the rules that an application
    lists are expanded through aliases and rule groups into the set of leaf rules they stand for. */
module PiiRules {
  import opened Wrappers

  type RuleId = string

  datatype Redaction = Default | Remove | Replace(text: string) | Mask | Hash

  /** Groups and aliases refer to other rules; `Matcher` stands for all rule types that do not. */
  datatype RuleType =
    | Multiple(rules: seq<RuleId>, hideInner: bool)
    | Alias(rule: RuleId, hideInner: bool)
    | Matcher(kind: string)

  datatype RuleSpec = RuleSpec(ty: RuleType, redaction: Redaction)

  datatype PiiConfig = PiiConfig(
    rules: map<RuleId, RuleSpec>,
    builtin: map<RuleId, RuleSpec>,
    applications: seq<(string, seq<RuleId>)>)

  datatype RuleRef = RuleRef(id: RuleId, origin: RuleId, ty: RuleType, redaction: Redaction) {
    function ForParent(parent: RuleRef): RuleRef {
      RuleRef(id, parent.origin, ty, if parent.redaction == Default then redaction else parent.redaction)
    }
  }

  /** Rule references are equal if their ids are, so a set of them is a map from ids. */
  type RuleSet = map<RuleId, RuleRef>

  predicate Known(config: PiiConfig, id: RuleId) { id in config.rules || id in config.builtin }

  /** Custom rules shadow builtin rules. */
  function Spec(config: PiiConfig, id: RuleId): RuleSpec
    requires Known(config, id)
  {
    if id in config.rules then config.rules[id] else config.builtin[id]
  }

  function GetRule(config: PiiConfig, id: RuleId): Option<RuleRef> {
    if Known(config, id)
    then Some(RuleRef(id, id, Spec(config, id).ty, Spec(config, id).redaction))
    else None
  }

  /** The rules that a rule refers to. */
  function Children(config: PiiConfig, id: RuleId): seq<RuleId> {
    if !Known(config, id) then [] else
      match Spec(config, id).ty
      case Multiple(rules, _) => rules
      case Alias(rule, _) => [rule]
      case Matcher(_) => []
  }

  predicate IsLeaf(config: PiiConfig, id: RuleId) { Known(config, id) && Spec(config, id).ty.Matcher? }

  predicate Hides(config: PiiConfig, id: RuleId) {
    Known(config, id) && !Spec(config, id).ty.Matcher? && Spec(config, id).ty.hideInner
  }

  /** The rank of a rule is above that of the rules it refers to: the rule graph has no cycles. */
  ghost predicate Ranked(config: PiiConfig, rank: RuleId -> nat) {
    forall id, i :: 0 <= i < |Children(config, id)| ==> rank(Children(config, id)[i]) < rank(id)
  }

  // ----- Rule graphs without cycles ------------------------------------------------------------------

  /** Rules of which each one refers to the next. */
  ghost predicate IsChain(config: PiiConfig, chain: seq<RuleId>) {
    |chain| >= 2 && forall i :: 0 <= i < |chain| - 1 ==> chain[i + 1] in Children(config, chain[i])
  }

  ghost predicate Leads(config: PiiConfig, id: RuleId, target: RuleId) {
    exists chain :: IsChain(config, chain) && chain[0] == id && chain[|chain| - 1] == target
  }

  /** No rule refers to itself, directly or through other rules. */
  ghost predicate Acyclic(config: PiiConfig) {
    forall id :: !Leads(config, id, id)
  }

  /** All rules that some rule refers to. */
  function Targets(config: PiiConfig): set<RuleId> {
    set id, i | id in config.rules.Keys + config.builtin.Keys && 0 <= i < |Children(config, id)| :: Children(config, id)[i]
  }

  ghost function Reached(config: PiiConfig, id: RuleId): set<RuleId> {
    set x | x in Targets(config) && Leads(config, id, x)
  }

  lemma {:induction false} SubsetSize(a: set<RuleId>, b: set<RuleId>)
    requires a <= b
    ensures |a| <= |b|
  {
    if a != {} {
      var x :| x in a;
      SubsetSize(a - {x}, b - {x});
    }
  }

  lemma LeadsOn(config: PiiConfig, id: RuleId, child: RuleId, x: RuleId)
    requires child in Children(config, id) && (x == child || Leads(config, child, x))
    ensures Leads(config, id, x)
  {
    if x == child {
      var chain := [id, child];
      assert IsChain(config, chain);
    } else {
      var chain :| IsChain(config, chain) && chain[0] == child && chain[|chain| - 1] == x;
      var longer := [id] + chain;
      assert forall i :: 0 < i < |longer| - 1 ==> longer[i] == chain[i - 1] && longer[i + 1] == chain[i];
      assert IsChain(config, longer) && longer[|longer| - 1] == x;
    }
  }

  /** Without cycles, a rule reaches more than each rule that it refers to. */
  lemma ChildReachesLess(config: PiiConfig, id: RuleId, child: RuleId)
    requires Acyclic(config) && child in Children(config, id)
    ensures |Reached(config, child)| < |Reached(config, id)|
  {
    LeadsOn(config, id, child, child);
    assert child in Reached(config, id) && child !in Reached(config, child);
    forall x | x in Reached(config, child)
      ensures x in Reached(config, id)
    {
      LeadsOn(config, id, child, x);
    }
    SubsetSize(Reached(config, child), Reached(config, id) - {child});
  }

  lemma {:induction false} ChainDescends(config: PiiConfig, rank: RuleId -> nat, chain: seq<RuleId>)
    requires Ranked(config, rank) && IsChain(config, chain)
    ensures rank(chain[|chain| - 1]) < rank(chain[0])
  {
    var n := |chain| - 1;
    assert chain[n] in Children(config, chain[n - 1]);
    if n > 1 {
      assert forall i :: 0 <= i < n - 1 ==> chain[..n][i + 1] in Children(config, chain[..n][i]);
      ChainDescends(config, rank, chain[..n]);
    }
  }

  /** Rules can be ranked exactly if none of them refers to itself, directly or through other rules. */
  lemma AcyclicIffRanked(config: PiiConfig)
    ensures Acyclic(config) <==> exists rank :: Ranked(config, rank)
  {
    if Acyclic(config) {
      var rank := (id: RuleId) => |Reached(config, id)|;
      forall id, i | 0 <= i < |Children(config, id)|
        ensures rank(Children(config, id)[i]) < rank(id)
      {
        ChildReachesLess(config, id, Children(config, id)[i]);
      }
      assert Ranked(config, rank);
    }
    forall rank, id | Ranked(config, rank)
      ensures !Leads(config, id, id)
    {
      forall chain | IsChain(config, chain)
        ensures chain[0] != chain[|chain| - 1]
      {
        ChainDescends(config, rank, chain);
      }
    }
  }

  /** A strict bound of the ranks of the given rules. */
  ghost function Peak(ids: seq<RuleId>, rank: RuleId -> nat): nat {
    if ids == [] then 0 else
      var init, last := Peak(ids[..|ids| - 1], rank), rank(ids[|ids| - 1]) + 1;
      if init < last then last else init
  }

  lemma {:induction false} PeakBelow(ids: seq<RuleId>, rank: RuleId -> nat, bound: nat)
    requires forall i :: 0 <= i < |ids| ==> rank(ids[i]) < bound
    ensures Peak(ids, rank) <= bound
  {
    if ids != [] {
      PeakBelow(ids[..|ids| - 1], rank, bound);
    }
  }

  // ----- The compiler ------------------------------------------------------------------------------

  /** The rules after collecting what `id` stands for, below the given parent if it hides its inner rules. */
  ghost function Collect(config: PiiConfig, rank: RuleId -> nat, rules: RuleSet, id: RuleId,
                         parent: Option<RuleRef>): RuleSet
    requires Ranked(config, rank)
    decreases rank(id)
  {
    match GetRule(config, id)
    case None => rules
    case Some(found) =>
      if id in rules then rules else
        var rule := if parent.Some? then found.ForParent(parent.value) else found;
        if rule.ty.Matcher? then rules[id := rule] else
          PeakBelow(Children(config, id), rank, rank(id));
          CollectAll(config, rank, rules, Children(config, id), if rule.ty.hideInner then Some(rule) else None)
  }

  ghost function CollectAll(config: PiiConfig, rank: RuleId -> nat, rules: RuleSet, ids: seq<RuleId>,
                            parent: Option<RuleRef>): RuleSet
    requires Ranked(config, rank)
    decreases Peak(ids, rank), |ids|
  {
    if ids == [] then rules else
      var n := |ids| - 1;
      Collect(config, rank, CollectAll(config, rank, rules, ids[..n], parent), ids[n], parent)
  }

  /** The mutable set that rules are collected in. */
  class Collector {
    var rules: RuleSet

    constructor ()
      ensures rules == map[]
    {
      rules := map[];
    }

    method CollectRules(config: PiiConfig, id: RuleId, parent: Option<RuleRef>, ghost rank: RuleId -> nat)
      requires Ranked(config, rank)
      modifies this
      ensures rules == Collect(config, rank, old(rules), id, parent)
      decreases rank(id)
    {
      var found := GetRule(config, id);
      if found.None? || id in rules {
        return;
      }
      var rule := if parent.Some? then found.value.ForParent(parent.value) else found.value;
      match rule.ty
      case Multiple(inner, hideInner) =>
        var next := if hideInner then Some(rule) else None;
        for i := 0 to |inner|
          invariant rules == CollectAll(config, rank, old(rules), inner[..i], next)
        {
          assert inner[i] == Children(config, id)[i];
          assert inner[..i + 1][..i] == inner[..i];
          CollectRules(config, inner[i], next, rank);
        }
        assert inner[..|inner|] == inner;
      case Alias(inner, hideInner) =>
        assert inner == Children(config, id)[0];
        var next := if hideInner then Some(rule) else None;
        CollectRules(config, inner, next, rank);
        assert CollectAll(config, rank, old(rules), [inner][..0], next) == old(rules);
        assert rules == CollectAll(config, rank, old(rules), [inner], next);
      case Matcher(_) =>
        rules := rules[id := rule];
    }
  }

  /** The compiled form: for every selector the set of leaf rules. */
  ghost function Compile(config: PiiConfig, rank: RuleId -> nat): seq<(string, RuleSet)>
    requires Ranked(config, rank)
  {
    seq(|config.applications|, i requires 0 <= i < |config.applications| =>
      (config.applications[i].0, CollectAll(config, rank, map[], config.applications[i].1, None)))
  }

  method CompiledPiiConfig(config: PiiConfig, ghost rank: RuleId -> nat) returns (applications: seq<(string, RuleSet)>)
    requires Ranked(config, rank)
    ensures applications == Compile(config, rank)
  {
    applications := [];
    for i := 0 to |config.applications|
      invariant |applications| == i
      invariant forall j :: 0 <= j < i ==> applications[j] == Compile(config, rank)[j]
    {
      var (selector, ids) := config.applications[i];
      var collector := new Collector();
      for k := 0 to |ids|
        invariant fresh(collector)
        invariant collector.rules == CollectAll(config, rank, map[], ids[..k], None)
      {
        assert ids[..k + 1][..k] == ids[..k];
        collector.CollectRules(config, ids[k], None, rank);
      }
      assert ids[..|ids|] == ids;
      applications := applications + [(selector, collector.rules)];
    }
  }
}
