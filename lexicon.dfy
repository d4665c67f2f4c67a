/**
 * Severity tiers, dictionaries, the locale registry, the effective lexicon
 * (a locale's base dictionary overlaid with the instance's custom words)
 * and the tier gate.
 */
module Lexicon {

  /** `CensorTier`: the numeric identity 1..5 is the key of the tier gate. */
  newtype Tier = t: int | 1 <= t <= 5 witness 1

  const Slurs: Tier := 1
  const CommonProfanity: Tier := 2
  const SexualTerms: Tier := 3
  const PossiblyOffensive: Tier := 4
  const UserAdded: Tier := 5

  const AllTiers: set<Tier> := {Slurs, CommonProfanity, SexualTerms, PossiblyOffensive, UserAdded}

  /** A word-to-tier dictionary. */
  type Dictionary = map<string, Tier>

  /** The locale table: a dictionary per locale name. */
  type Registry = map<string, Dictionary>

  /** The tier gate: an "enabled" flag per tier. */
  type TierGate = map<Tier, bool>

  /** The gate a fresh instance starts with: every tier enabled. */
  const DefaultTiers: TierGate :=
    map[Slurs := true, CommonProfanity := true, SexualTerms := true,
        PossiblyOffensive := true, UserAdded := true]

  /** A missing gate entry reads as disabled, as an absent key is falsy. */
  predicate Enabled(tiers: TierGate, t: Tier)
  {
    t in tiers && tiers[t]
  }

  /** The tier type has exactly five values, and the default gate enables them all. */
  lemma DefaultTiersEnableAll()
    ensures DefaultTiers.Keys == AllTiers
    ensures forall t: Tier :: t in AllTiers && Enabled(DefaultTiers, t)
  {
    forall t: Tier ensures t in AllTiers {
      assert t == 1 || t == 2 || t == 3 || t == 4 || t == 5;
    }
  }

  /** The locale's base dictionary; an unknown locale contributes no words. */
  function Base(registry: Registry, locale: string): Dictionary
  {
    if locale in registry then registry[locale] else map[]
  }

  /**
   * The effective lexicon: the base dictionary of the locale with the custom
   * dictionary laid over it, custom entries winning.
   */
  function Effective(registry: Registry, locale: string, custom: Dictionary): (d: Dictionary)
    ensures forall w :: w in d <==> w in custom || (locale in registry && w in registry[locale])
    ensures forall w :: w in custom ==> d[w] == custom[w]
    ensures forall w :: w !in custom && locale in registry && w in registry[locale] ==>
              d[w] == registry[locale][w]
    ensures locale !in registry ==> d == custom
  {
    Base(registry, locale) + custom
  }

  /** Adding a custom word sets exactly that entry of the effective lexicon. */
  lemma EffectiveAddWord(registry: Registry, locale: string, custom: Dictionary, w: string, t: Tier)
    ensures Effective(registry, locale, custom[w := t]) == Effective(registry, locale, custom)[w := t]
  {
  }

  /**
   * Removing a custom word makes the effective lexicon fall back to the
   * locale's entry for it, and leaves every other word as it was.
   */
  lemma EffectiveRemoveWord(registry: Registry, locale: string, custom: Dictionary, w: string)
    ensures var d := Effective(registry, locale, custom - {w});
            && (w in d <==> w in Base(registry, locale))
            && (w in d ==> d[w] == Base(registry, locale)[w])
            && d - {w} == Effective(registry, locale, custom) - {w}
  {
    var d := Effective(registry, locale, custom - {w});
    var e := Effective(registry, locale, custom);
    assert (d - {w}).Keys == (e - {w}).Keys;
  }
}
