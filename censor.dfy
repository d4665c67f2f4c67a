/**
 * The engine object `CensorSensor`: its fields are updated in place by the
 * locale, tier and word mutators and by the mask setters; the matchers and
 * redactors read them.
 */
module Censor {
  import opened Text
  import opened Lexicon
  import opened Normalizer
  import opened Matcher
  import opened Redactor

  datatype Option<T> = None | Some(value: T)

  class CensorSensor {
    /** The active locale name. */
    var locale: string
    /** The locale table this instance looks locales up in. */
    var locales: Registry
    /** Words marked by `RemoveWord`; no matcher ever reads it. */
    var blackList: set<string>
    /** Per-instance words, laid over the locale's dictionary. */
    var customDictionary: Dictionary
    /** The tier gate. */
    var enabledTiers: TierGate
    /** The installed mask, if any. */
    var customCleanFunction: Option<Mask>

    /** The gate has exactly one flag per tier. */
    ghost predicate Valid()
      reads this
    {
      enabledTiers.Keys == AllTiers
    }

    /** A fresh engine: locale "en", no custom words, every tier enabled, default mask. */
    constructor (registry: Registry)
      ensures Valid()
      ensures locale == "en" && locales == registry
      ensures blackList == {} && customDictionary == map[]
      ensures enabledTiers == DefaultTiers && forall t: Tier :: Enabled(enabledTiers, t)
      ensures customCleanFunction == None
    {
      locale := "en";
      locales := registry;
      blackList := {};
      customDictionary := map[];
      enabledTiers := DefaultTiers;
      customCleanFunction := None;
      DefaultTiersEnableAll();
    }

    /** `currentDictionary`: recomputed from the fields on every use. */
    function CurrentDictionary(): Dictionary
      reads this
    {
      Effective(locales, locale, customDictionary)
    }

    /** `cleanFunction`: the installed mask, else the default one. */
    function CleanFunction(): Mask
      reads this
    {
      match customCleanFunction
      case Some(f) => f
      case None => DefaultMask
    }

    /** Registers (or replaces) a locale dictionary under a name. */
    method AddLocale(newLocale: string, dict: Dictionary)
      requires Valid()
      modifies this`locales
      ensures Valid()
      ensures locales == old(locales)[newLocale := dict]
      ensures newLocale == locale ==> CurrentDictionary() == dict + customDictionary
    {
      locales := locales[newLocale := dict];
    }

    method SetLocale(newLocale: string)
      requires Valid()
      modifies this`locale
      ensures Valid()
      ensures locale == newLocale
      ensures CurrentDictionary() == Effective(locales, newLocale, customDictionary)
    {
      locale := newLocale;
    }

    method DisableTier(tier: Tier)
      requires Valid()
      modifies this`enabledTiers
      ensures Valid()
      ensures enabledTiers == old(enabledTiers)[tier := false]
      ensures !Enabled(enabledTiers, tier)
      ensures forall t: Tier :: t != tier ==> (Enabled(enabledTiers, t) <==> old(Enabled(enabledTiers, t)))
    {
      enabledTiers := enabledTiers[tier := false];
    }

    method EnableTier(tier: Tier)
      requires Valid()
      modifies this`enabledTiers
      ensures Valid()
      ensures enabledTiers == old(enabledTiers)[tier := true]
      ensures Enabled(enabledTiers, tier)
      ensures forall t: Tier :: t != tier ==> (Enabled(enabledTiers, t) <==> old(Enabled(enabledTiers, t)))
    {
      enabledTiers := enabledTiers[tier := true];
    }

    /** Adds (or re-tiers) a custom word; `UserAdded` when no tier is given. */
    method AddWord(word: string, tier: Tier := UserAdded)
      requires Valid()
      modifies this`customDictionary, this`blackList
      ensures Valid()
      ensures customDictionary == old(customDictionary)[word := tier]
      ensures blackList == old(blackList) - {word}
      ensures CurrentDictionary() == old(CurrentDictionary())[word := tier]
    {
      customDictionary := customDictionary[word := tier];
      blackList := blackList - {word};
      EffectiveAddWord(locales, locale, old(customDictionary), word, tier);
    }

    /**
     * Drops a custom word and marks it in the blacklist. The effective
     * lexicon falls back to the locale's entry for the word.
     */
    method RemoveWord(word: string)
      requires Valid()
      modifies this`customDictionary, this`blackList
      ensures Valid()
      ensures customDictionary == old(customDictionary) - {word}
      ensures blackList == old(blackList) + {word}
      ensures word in CurrentDictionary() <==> word in Base(locales, locale)
      ensures word in CurrentDictionary() ==> CurrentDictionary()[word] == Base(locales, locale)[word]
      ensures CurrentDictionary() - {word} == old(CurrentDictionary()) - {word}
    {
      customDictionary := customDictionary - {word};
      blackList := blackList + {word};
      EffectiveRemoveWord(locales, locale, old(customDictionary), word);
    }

    /** `isProfane`: some field of the normalised phrase is an enabled key of the current lexicon. */
    function IsProfane(phrase: string): (r: bool)
      reads this
      ensures r <==> SomeTokenHits(Split(Prepare(phrase)), CurrentDictionary(), enabledTiers)
    {
      IsProfanePhrase(phrase, CurrentDictionary(), enabledTiers)
    }

    /**
     * `_isProfaneIsh`: scans every key of `dict`, in whatever order, and
     * sets the flag on the first enabled key that occurs in the phrase.
     */
    method ScanIsProfaneIsh(phrase: string, dict: Dictionary) returns (isAnyMatch: bool)
      ensures isAnyMatch <==> QualifyingKeys(phrase, dict, enabledTiers) != {}
    {
      ghost var qualifying := QualifyingKeys(phrase, dict, enabledTiers);
      isAnyMatch := false;
      var todo := dict.Keys;
      while todo != {}
        invariant todo <= dict.Keys
        invariant isAnyMatch <==> qualifying - todo != {}
        decreases |todo|
      {
        var dictWord :| dictWord in todo;
        if !isAnyMatch {
          var tier := dict[dictWord];
          if Contains(phrase, dictWord, false) && Enabled(enabledTiers, tier) {
            isAnyMatch := true;
            assert dictWord in qualifying - (todo - {dictWord});
          }
        } else {
          ghost var seen :| seen in qualifying - todo;
          assert seen in qualifying - (todo - {dictWord});
        }
        todo := todo - {dictWord};
      }
    }

    /** `isProfaneIsh`: the substring scan over the normalised phrase. */
    method IsProfaneIsh(phrase: string) returns (r: bool)
      ensures r <==> QualifyingKeys(Prepare(phrase), CurrentDictionary(), enabledTiers) != {}
    {
      var dict := CurrentDictionary();
      r := ScanIsProfaneIsh(Prepare(phrase), dict);
    }

    /**
     * `_profaneIshWords`: pushes the caller's original fragment once per
     * enabled key of `dict` that occurs in the phrase.
     */
    method ScanProfaneIshWords(phrase: string, dict: Dictionary, oPhrase: string)
      returns (foundProfanity: seq<string>)
      ensures |foundProfanity| == |QualifyingKeys(phrase, dict, enabledTiers)|
      ensures forall i :: 0 <= i < |foundProfanity| ==> foundProfanity[i] == oPhrase
    {
      ghost var qualifying := QualifyingKeys(phrase, dict, enabledTiers);
      foundProfanity := [];
      var todo := dict.Keys;
      while todo != {}
        invariant todo <= dict.Keys
        invariant |foundProfanity| == |qualifying - todo|
        invariant forall i :: 0 <= i < |foundProfanity| ==> foundProfanity[i] == oPhrase
        decreases |todo|
      {
        var dictWord :| dictWord in todo;
        var tier := dict[dictWord];
        if Contains(phrase, dictWord, false) && Enabled(enabledTiers, tier) {
          foundProfanity := foundProfanity + [oPhrase];
          assert dictWord in qualifying;
          SeenGrows(qualifying, todo, dictWord);
        } else {
          assert dictWord !in qualifying;
          SeenSame(qualifying, todo, dictWord);
        }
        todo := todo - {dictWord};
      }
    }

    /** `profaneIshWords`: the phrase is scanned as given, not normalised. */
    method ProfaneIshWords(phrase: string, oPhrase: string) returns (found: seq<string>)
      ensures |found| == |QualifyingKeys(phrase, CurrentDictionary(), enabledTiers)|
      ensures forall i :: 0 <= i < |found| ==> found[i] == oPhrase
    {
      var dict := CurrentDictionary();
      found := ScanProfaneIshWords(phrase, dict, oPhrase);
    }

    method SetCleanFunction(func: Mask)
      requires Valid()
      modifies this`customCleanFunction
      ensures Valid()
      ensures customCleanFunction == Some(func)
      ensures forall w :: CleanFunction()(w) == func(w)
    {
      customCleanFunction := Some(func);
    }

    method ResetCleanFunction()
      requires Valid()
      modifies this`customCleanFunction
      ensures Valid()
      ensures customCleanFunction == None
      ensures forall w :: CleanFunction()(w) == "****"
    {
      customCleanFunction := None;
    }

    /**
     * `cleanProfanity`: when the mask yields no space for the fields that
     * are hits, the fields of the result are the fields of the phrase, each masked iff its lower-cased
     * form is an enabled key; with no such field, the phrase itself.
     */
    function CleanProfanity(phrase: string): (r: string)
      reads this
      ensures HitMasksSpaceFree(phrase, CurrentDictionary(), enabledTiers, CleanFunction()) ==>
                Split(r) == MaskFields(Split(phrase), CurrentDictionary(), enabledTiers, CleanFunction())
      ensures (forall f :: f in Split(phrase) ==> !IsHit(LowerStr(f), CurrentDictionary(), enabledTiers)) ==>
                r == phrase
    {
      CleanExactFields(phrase, CurrentDictionary(), enabledTiers, CleanFunction());
      CleanExactNoHit(phrase, CurrentDictionary(), enabledTiers, CleanFunction());
      CleanExact(phrase, CurrentDictionary(), enabledTiers, CleanFunction())
    }

    /**
     * `cleanProfanityIsh`: for each field of the original phrase, in order,
     * and for each copy of it that `ProfaneIshWords` returns, replace every
     * case-insensitive occurrence of it in the running phrase by its mask.
     */
    method CleanProfanityIsh(phrase: string) returns (result: string)
      ensures result == CleanIsh(phrase, CurrentDictionary(), enabledTiers, CleanFunction())
    {
      var cleanFunc := CleanFunction();
      var phrases := Split(phrase);
      result := phrase;
      var i := 0;
      while i < |phrases|
        invariant 0 <= i <= |phrases|
        invariant result == FoldSteps(phrase, phrases[..i], CurrentDictionary(), enabledTiers, cleanFunc)
      {
        var allProfanity := ProfaneIshWords(Prepare(phrases[i]), phrases[i]);
        ghost var before := result;
        var j := 0;
        while j < |allProfanity|
          invariant 0 <= j <= |allProfanity|
          invariant result == ReplaceTimes(before, phrases[i], cleanFunc(phrases[i]), j)
        {
          var word := allProfanity[j];
          result := ReplaceAll(result, word, cleanFunc(word), true);
          j := j + 1;
        }
        assert phrases[..i + 1][..i] == phrases[..i];
        i := i + 1;
      }
      assert phrases[..|phrases|] == phrases;
    }
  }

  /** Visiting a qualifying key adds exactly one to the keys seen so far. */
  lemma SeenGrows(qualifying: set<string>, todo: set<string>, k: string)
    requires k in todo && k in qualifying
    ensures |qualifying - (todo - {k})| == |qualifying - todo| + 1
  {
    assert qualifying - (todo - {k}) == (qualifying - todo) + {k};
  }

  /** Visiting a key that does not qualify leaves the keys seen so far unchanged. */
  lemma SeenSame(qualifying: set<string>, todo: set<string>, k: string)
    requires k !in qualifying
    ensures qualifying - (todo - {k}) == qualifying - todo
  {
  }

  /**
   * A client run of the tier gate on a fresh engine: a canonical, space-free
   * word added with tier `t` is profane, stops being profane when `t` is
   * disabled, and is profane again when `t` is re-enabled.
   */
  method TierGateRoundTrip(registry: Registry, w: string, t: Tier)
    returns (added: bool, disabled: bool, reenabled: bool)
    requires ' ' !in w && Canonical(w)
    ensures added && !disabled && reenabled
  {
    var sensor := new CensorSensor(registry);
    sensor.AddWord(w, t);
    SingleWord(w, sensor.CurrentDictionary(), sensor.enabledTiers);
    added := sensor.IsProfane(w);
    sensor.DisableTier(t);
    SingleWord(w, sensor.CurrentDictionary(), sensor.enabledTiers);
    disabled := sensor.IsProfane(w);
    sensor.EnableTier(t);
    SingleWord(w, sensor.CurrentDictionary(), sensor.enabledTiers);
    reenabled := sensor.IsProfane(w);
  }
}
