/**
 * The two matching strategies: exact token lookup (`isProfane`) and the
 * substring scan over every lexicon key (`isProfaneIsh`, `profaneIshWords`),
 * both gated by tier.
 */
module Matcher {
  import opened Text
  import opened Lexicon
  import opened Normalizer

  /** `_isProfane`: the word is a key of the dictionary and its tier is enabled. */
  predicate IsHit(word: string, dict: Dictionary, tiers: TierGate)
  {
    word in dict && Enabled(tiers, dict[word])
  }

  /** Some token is a hit. */
  predicate SomeTokenHits(words: seq<string>, dict: Dictionary, tiers: TierGate)
  {
    exists i :: 0 <= i < |words| && IsHit(words[i], dict, tiers)
  }

  /** `some` over the tokens, with `_isProfane` as the test. */
  function AnyHit(words: seq<string>, dict: Dictionary, tiers: TierGate): (r: bool)
    ensures r <==> SomeTokenHits(words, dict, tiers)
    decreases |words|
  {
    if words == [] then false
    else IsHit(words[0], dict, tiers) || AnyHit(words[1..], dict, tiers)
  }

  /**
   * `isProfane` for a given lexicon and gate: some single-space field of the
   * normalised phrase is a key whose tier is enabled.
   */
  function IsProfanePhrase(phrase: string, dict: Dictionary, tiers: TierGate): (r: bool)
    ensures r <==> SomeTokenHits(Split(Prepare(phrase)), dict, tiers)
  {
    AnyHit(Split(Prepare(phrase)), dict, tiers)
  }

  /**
   * The keys the substring scan counts: every key that occurs in the phrase
   * (case-sensitively) and whose tier is enabled.
   */
  function QualifyingKeys(phrase: string, dict: Dictionary, tiers: TierGate): set<string>
  {
    set k | k in dict && Contains(phrase, k, false) && Enabled(tiers, dict[k])
  }

  /** The empty phrase is profane exactly when the empty word is itself an enabled key. */
  lemma EmptyPhrase(dict: Dictionary, tiers: TierGate)
    ensures IsProfanePhrase("", dict, tiers) <==> IsHit("", dict, tiers)
  {
    assert Prepare("") == "";
    assert Split("") == [""];
  }

  /** A canonical, space-free word is profane exactly when it is an enabled key. */
  lemma SingleWord(w: string, dict: Dictionary, tiers: TierGate)
    requires ' ' !in w && Canonical(w)
    ensures IsProfanePhrase(w, dict, tiers) <==> IsHit(w, dict, tiers)
  {
    PrepareFixesCanonical(w);
    SplitSpaceFree(w);
  }

  /**
   * Disabling the tier of a lexicon word hides it; enabling the tier again
   * restores it. The lexicon is not involved in either step.
   */
  lemma TierGateToggle(w: string, dict: Dictionary, tiers: TierGate)
    requires ' ' !in w && Canonical(w) && w in dict
    ensures !IsProfanePhrase(w, dict, tiers[dict[w] := false])
    ensures IsProfanePhrase(w, dict, tiers[dict[w] := false][dict[w] := true])
  {
    SingleWord(w, dict, tiers[dict[w] := false]);
    SingleWord(w, dict, tiers[dict[w] := false][dict[w] := true]);
  }

  /** Adding a word to the custom dictionary with an enabled tier makes it profane. */
  lemma AddedWordIsProfane(registry: Registry, locale: string, custom: Dictionary,
                           w: string, t: Tier, tiers: TierGate)
    requires ' ' !in w && Canonical(w) && Enabled(tiers, t)
    ensures IsProfanePhrase(w, Effective(registry, locale, custom[w := t]), tiers)
  {
    SingleWord(w, Effective(registry, locale, custom[w := t]), tiers);
  }

  /**
   * Removing a word from the custom dictionary does not suppress it when the
   * locale's base dictionary has it with an enabled tier.
   */
  lemma RemovedLocaleWordStaysProfane(registry: Registry, locale: string, custom: Dictionary,
                                      w: string, tiers: TierGate)
    requires ' ' !in w && Canonical(w)
    requires w in Base(registry, locale) && Enabled(tiers, Base(registry, locale)[w])
    ensures IsProfanePhrase(w, Effective(registry, locale, custom - {w}), tiers)
  {
    EffectiveRemoveWord(registry, locale, custom, w);
    SingleWord(w, Effective(registry, locale, custom - {w}), tiers);
  }

  /** A word in neither the custom dictionary nor the locale's dictionary is never a hit. */
  lemma UnknownWordNotHit(registry: Registry, locale: string, custom: Dictionary,
                          w: string, tiers: TierGate)
    requires w !in custom && w !in Base(registry, locale)
    ensures !IsHit(w, Effective(registry, locale, custom), tiers)
  {
  }
}
