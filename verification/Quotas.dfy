/** Quotas and the items they apply to (relay-quotas/src/quota.rs). */
module Quotas {
  import opened Wrappers
  import Decimals

  datatype DataCategory = Unknown | Default | Error | Transaction | Security | Attachment | Session {
    /** The discriminant, by which categories are ordered. */
    function Rank(): int {
      match this
      case Unknown => -1
      case Default => 0
      case Error => 1
      case Transaction => 2
      case Security => 3
      case Attachment => 4
      case Session => 5
    }
  }

  datatype Scoping = Scoping(organizationId: nat, projectId: nat, projectKey: string, keyId: Option<nat>)

  datatype QuotaScope = OrganizationScope | ProjectScope | KeyScope | UnknownScope

  /** An empty list of categories stands for all categories. */
  predicate MatchesCategories(categories: seq<DataCategory>, category: DataCategory) {
    categories == [] || category in categories
  }

  datatype ItemScoping = ItemScoping(category: DataCategory, scoping: Scoping) {
    function ScopeId(scope: QuotaScope): Option<nat> {
      match scope
      case OrganizationScope => Some(scoping.organizationId)
      case ProjectScope => Some(scoping.projectId)
      case KeyScope => scoping.keyId
      case UnknownScope => None
    }
  }

  /** The number of values of a `u64`. */
  const U64_VALUES: nat := 0x1_0000_0000_0000_0000

  datatype Quota = Quota(
    id: Option<string>,
    categories: seq<DataCategory>,
    scope: QuotaScope,
    scopeId: Option<string>,
    limit: Option<nat>,
    window: Option<nat>,
    reasonCode: Option<string>)
  {
    predicate MatchesScope(item: ItemScoping) {
      match scopeId
      case None => true
      case Some(text) =>
        match Decimals.Parse(text, U64_VALUES)
        case None => false
        case Some(id) => item.ScopeId(scope) == Some(id)
    }

    predicate Matches(item: ItemScoping) {
      MatchesScope(item) && MatchesCategories(categories, item.category)
    }
  }

  /** A quota applies to an item exactly if its categories do and it has no constraint, or the constraint is a text
      that stands for the id of the item's scope, with or without leading zeros or a plus sign. */
  lemma ScopeConstraint(quota: Quota, item: ItemScoping)
    ensures quota.Matches(item) <==>
              && (|quota.categories| == 0 || exists i :: 0 <= i < |quota.categories| && quota.categories[i] == item.category)
              && (quota.scopeId.None? ||
                  match quota.scope
                  case OrganizationScope => IsId(quota.scopeId.value, Some(item.scoping.organizationId))
                  case ProjectScope => IsId(quota.scopeId.value, Some(item.scoping.projectId))
                  case KeyScope => IsId(quota.scopeId.value, item.scoping.keyId)
                  case UnknownScope => false)
  {
    if quota.scopeId.Some? && item.ScopeId(quota.scope).Some? {
      Decimals.ParseIff(quota.scopeId.value, U64_VALUES, item.ScopeId(quota.scope).value);
    }
  }

  /** The text stands for the 64-bit id. */
  ghost predicate IsId(text: string, id: Option<nat>) {
    id.Some? && id.value < U64_VALUES && Decimals.StandsFor(text, id.value)
  }

  ghost predicate Numeric(text: string) {
    exists n: nat :: n < U64_VALUES && Decimals.StandsFor(text, n)
  }

  /** The match as it is documented, which also admits a constraint that is not numeric. */
  ghost predicate DocumentedMatch(quota: Quota, item: ItemScoping) {
    || quota.scopeId.None?
    || !Numeric(quota.scopeId.value)
    || quota.MatchesScope(item)
  }

  /** The documentation of `matches_scope` is right exactly for quotas without a constraint or with a numeric one. */
  lemma DocumentationIsRight(quota: Quota, item: ItemScoping)
    ensures (quota.MatchesScope(item) <==> DocumentedMatch(quota, item)) <==>
              quota.scopeId.None? || Numeric(quota.scopeId.value)
  {
    if quota.scopeId.Some? && Decimals.Parse(quota.scopeId.value, U64_VALUES).Some? {
      Decimals.ParseIff(quota.scopeId.value, U64_VALUES, Decimals.Parse(quota.scopeId.value, U64_VALUES).value);
    }
  }
}
