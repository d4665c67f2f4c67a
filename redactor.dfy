/**
 * The two redactors as functions of the lexicon, the gate and the mask:
 * `cleanProfanity` (field by field) and `cleanProfanityIsh` (a fold of
 * global case-insensitive replacements over the running phrase).
 */
module Redactor {
  import opened Text
  import opened Lexicon
  import opened Normalizer
  import opened Matcher

  /** A masking function: renders a matched word as its replacement. */
  type Mask = string -> string

  /** The default mask: four asterisks, whatever the word. */
  function DefaultMask(word: string): string
  {
    "****"
  }

  /** The mask yields no space for any field of the phrase that is a hit. */
  predicate HitMasksSpaceFree(phrase: string, dict: Dictionary, tiers: TierGate, mask: Mask)
  {
    forall f :: f in Split(phrase) && IsHit(LowerStr(f), dict, tiers) ==> ' ' !in mask(f)
  }

  /** The per-field step of `cleanProfanity`: the lower-cased field is looked up. */
  function MaskField(field: string, dict: Dictionary, tiers: TierGate, mask: Mask): string
  {
    if IsHit(LowerStr(field), dict, tiers) then mask(field) else field
  }

  /** `map` of the per-field step. */
  function MaskFields(fields: seq<string>, dict: Dictionary, tiers: TierGate, mask: Mask): (r: seq<string>)
    ensures |r| == |fields|
    ensures forall i :: 0 <= i < |fields| ==> r[i] == MaskField(fields[i], dict, tiers, mask)
  {
    seq(|fields|, i requires 0 <= i < |fields| => MaskField(fields[i], dict, tiers, mask))
  }

  /** `cleanProfanity` for a given lexicon, gate and mask. */
  function CleanExact(phrase: string, dict: Dictionary, tiers: TierGate, mask: Mask): string
  {
    Join(MaskFields(Split(phrase), dict, tiers, mask))
  }

  /**
   * When the mask yields no space for the fields that are hits, the fields
   * of the cleaned phrase are exactly the masked fields of the phrase: one
   * per field, each either the mask of its field (when the lower-cased field
   * is an enabled key) or the field unchanged.
   */
  lemma CleanExactFields(phrase: string, dict: Dictionary, tiers: TierGate, mask: Mask)
    ensures HitMasksSpaceFree(phrase, dict, tiers, mask) ==>
              Split(CleanExact(phrase, dict, tiers, mask)) == MaskFields(Split(phrase), dict, tiers, mask)
    ensures HitMasksSpaceFree(phrase, dict, tiers, mask) ==>
              |Split(CleanExact(phrase, dict, tiers, mask))| == |Split(phrase)|
  {
    if HitMasksSpaceFree(phrase, dict, tiers, mask) {
      var fields := Split(phrase);
      var masked := MaskFields(fields, dict, tiers, mask);
      SplitFieldsSpaceFree(phrase);
      forall i | 0 <= i < |masked|
        ensures ' ' !in masked[i]
      {
        assert fields[i] in fields;
      }
      SplitJoin(masked);
    }
  }

  /** The default mask keeps the field count. */
  lemma DefaultMaskKeepsFieldCount(phrase: string, dict: Dictionary, tiers: TierGate)
    ensures |Split(CleanExact(phrase, dict, tiers, DefaultMask))| == |Split(phrase)|
  {
    CleanExactFields(phrase, dict, tiers, DefaultMask);
  }

  /**
   * A mask that echoes the word between brackets keeps the field count too:
   * the fields it is applied to hold no space.
   */
  lemma BracketMaskKeepsFieldCount(phrase: string, dict: Dictionary, tiers: TierGate)
    ensures |Split(CleanExact(phrase, dict, tiers, w => "[" + w + "]"))| == |Split(phrase)|
  {
    var mask: Mask := w => "[" + w + "]";
    SplitFieldsSpaceFree(phrase);
    forall f | f in Split(phrase) && IsHit(LowerStr(f), dict, tiers)
      ensures ' ' !in mask(f)
    {
      assert mask(f) == "[" + f + "]";
    }
    CleanExactFields(phrase, dict, tiers, mask);
  }

  /** When no lower-cased field is an enabled key, the phrase comes back unchanged. */
  lemma CleanExactNoHit(phrase: string, dict: Dictionary, tiers: TierGate, mask: Mask)
    ensures (forall f :: f in Split(phrase) ==> !IsHit(LowerStr(f), dict, tiers)) ==>
              CleanExact(phrase, dict, tiers, mask) == phrase
  {
    var fields := Split(phrase);
    if forall f :: f in fields ==> !IsHit(LowerStr(f), dict, tiers) {
      assert MaskFields(fields, dict, tiers, mask) == fields;
      JoinSplit(phrase);
    }
  }

  /** `n` successive global case-insensitive replacements of `pat` by `rep`. */
  function ReplaceTimes(s: string, pat: string, rep: string, n: nat): string
    decreases n
  {
    if n == 0 then s else ReplaceAll(ReplaceTimes(s, pat, rep, n - 1), pat, rep, true)
  }

  /**
   * The number of times `cleanProfanityIsh` replaces a fragment: one per
   * enabled lexicon key occurring in the normalised fragment.
   */
  function HitCount(fragment: string, dict: Dictionary, tiers: TierGate): nat
  {
    |QualifyingKeys(Prepare(fragment), dict, tiers)|
  }

  /** The work `cleanProfanityIsh` does for one original fragment. */
  function Step(s: string, fragment: string, dict: Dictionary, tiers: TierGate, mask: Mask): string
  {
    ReplaceTimes(s, fragment, mask(fragment), HitCount(fragment, dict, tiers))
  }

  /** The steps for the fragments in order, each acting on the running phrase. */
  function FoldSteps(s: string, fragments: seq<string>, dict: Dictionary, tiers: TierGate, mask: Mask): string
    decreases |fragments|
  {
    if fragments == [] then s
    else
      var n := |fragments| - 1;
      Step(FoldSteps(s, fragments[..n], dict, tiers, mask), fragments[n], dict, tiers, mask)
  }

  /** `cleanProfanityIsh`: the fragments are the fields of the original phrase. */
  function CleanIsh(phrase: string, dict: Dictionary, tiers: TierGate, mask: Mask): string
  {
    FoldSteps(phrase, Split(phrase), dict, tiers, mask)
  }

  /** Steps for fragments that have no qualifying key leave the running phrase alone. */
  lemma {:induction false} FoldStepsNoHit(s: string, fragments: seq<string>, dict: Dictionary,
                                          tiers: TierGate, mask: Mask)
    requires forall i :: 0 <= i < |fragments| ==> HitCount(fragments[i], dict, tiers) == 0
    ensures FoldSteps(s, fragments, dict, tiers, mask) == s
    decreases |fragments|
  {
    if fragments != [] {
      var n := |fragments| - 1;
      FoldStepsNoHit(s, fragments[..n], dict, tiers, mask);
      assert HitCount(fragments[n], dict, tiers) == 0;
    }
  }

  /** When no original fragment has a qualifying key, the phrase comes back unchanged. */
  lemma CleanIshNoHit(phrase: string, dict: Dictionary, tiers: TierGate, mask: Mask)
    requires forall f :: f in Split(phrase) ==> QualifyingKeys(Prepare(f), dict, tiers) == {}
    ensures CleanIsh(phrase, dict, tiers, mask) == phrase
  {
    var fragments := Split(phrase);
    assert forall i :: 0 <= i < |fragments| ==> fragments[i] in fragments;
    FoldStepsNoHit(phrase, Split(phrase), dict, tiers, mask);
  }

  /**
   * With the "****" mask and a non-empty fragment free of '*', every repeat
   * of the replacement after the first is a no-op.
   */
  lemma {:induction false} RepeatsAreNoOps(s: string, pat: string, n: nat)
    requires pat != [] && '*' !in pat && n >= 1
    ensures ReplaceTimes(s, pat, "****", n) == ReplaceAll(s, pat, "****", true)
    decreases n
  {
    if n > 1 {
      RepeatsAreNoOps(s, pat, n - 1);
      ReplaceAllClears(s, pat);
      ReplaceAllAbsent(ReplaceAll(s, pat, "****", true), pat, "****", true);
    }
  }

  /**
   * With the default mask, once the step of a qualifying fragment (non-empty,
   * free of '*') has run, the running phrase holds no case-insensitive
   * occurrence of that fragment anywhere, and the step equals one replacement.
   */
  lemma StepClearsFragment(s: string, fragment: string, dict: Dictionary, tiers: TierGate)
    requires fragment != [] && '*' !in fragment
    requires QualifyingKeys(Prepare(fragment), dict, tiers) != {}
    ensures Step(s, fragment, dict, tiers, DefaultMask) == ReplaceAll(s, fragment, "****", true)
    ensures !Contains(Step(s, fragment, dict, tiers, DefaultMask), fragment, true)
  {
    RepeatsAreNoOps(s, fragment, HitCount(fragment, dict, tiers));
    ReplaceAllClears(s, fragment);
  }
}
