/**
 * The normaliser `prepareForParsing`: lower-case the phrase, then undo a
 * fixed list of leetspeak substitutions, each a global literal replacement,
 * in this order.
 */
module Normalizer {
  import opened Text

  function Prepare(phrase: string): string
  {
    var s0 := LowerStr(phrase);
    var s1 := ReplaceAll(s0, "0rz", "ers", false);
    var s2 := ReplaceAll(s1, "0t", "er", false);
    var s3 := ReplaceAll(s2, "xX", "ck", false);
    var s4 := ReplaceAll(s3, "0", "o", false);
    var s5 := ReplaceAll(s4, "!", "i", false);
    var s6 := ReplaceAll(s5, "3", "e", false);
    var s7 := ReplaceAll(s6, "4", "a", false);
    ReplaceAll(s7, "5", "s", false)
  }

  /** A normalised text: no upper-case ASCII letter and none of the leetspeak characters. */
  predicate Canonical(s: string)
  {
    forall c :: c in s ==> !IsUpper(c) && c !in "0!345"
  }

  /** No upper-case letter and none of `bad`. */
  predicate Avoids(s: string, bad: set<char>)
  {
    forall c :: c in s ==> !IsUpper(c) && c !in bad
  }

  /** A replacement step whose replacement avoids `bad` keeps a text that avoids it. */
  lemma StepAvoids(s: string, pat: string, rep: string, bad: set<char>)
    requires Avoids(s, bad) && Avoids(rep, bad)
    ensures Avoids(ReplaceAll(s, pat, rep, false), bad)
  {
    ReplaceAllChars(s, pat, rep, false);
  }

  /** A one-character step also removes its character. */
  lemma StepRemoves(s: string, ch: char, rep: string, bad: set<char>)
    requires Avoids(s, bad) && Avoids(rep, bad) && ch !in rep
    ensures Avoids(ReplaceAll(s, [ch], rep, false), bad + {ch})
  {
    StepAvoids(s, [ch], rep, bad);
    ReplaceAllRemovesChar(s, ch, rep);
  }

  /** Every output of the normaliser is canonical. */
  lemma PrepareCanonical(phrase: string)
    ensures Canonical(Prepare(phrase))
  {
    var s0 := LowerStr(phrase);
    var s1 := ReplaceAll(s0, "0rz", "ers", false);
    var s2 := ReplaceAll(s1, "0t", "er", false);
    var s3 := ReplaceAll(s2, "xX", "ck", false);
    var s4 := ReplaceAll(s3, "0", "o", false);
    var s5 := ReplaceAll(s4, "!", "i", false);
    var s6 := ReplaceAll(s5, "3", "e", false);
    var s7 := ReplaceAll(s6, "4", "a", false);
    StepAvoids(s0, "0rz", "ers", {});
    StepAvoids(s1, "0t", "er", {});
    StepAvoids(s2, "xX", "ck", {});
    StepRemoves(s3, '0', "o", {});
    StepRemoves(s4, '!', "i", {'0'});
    StepRemoves(s5, '3', "e", {'0', '!'});
    StepRemoves(s6, '4', "a", {'0', '!', '3'});
    StepRemoves(s7, '5', "s", {'0', '!', '3', '4'});
    assert Avoids(Prepare(phrase), {'0', '!', '3', '4', '5'});
  }

  /** The "xX" step can never fire: the phrase has already been lower-cased. */
  lemma UpperXStepIsNoOp(phrase: string)
    ensures var s2 := ReplaceAll(ReplaceAll(LowerStr(phrase), "0rz", "ers", false), "0t", "er", false);
            ReplaceAll(s2, "xX", "ck", false) == s2
  {
    var s0 := LowerStr(phrase);
    var s1 := ReplaceAll(s0, "0rz", "ers", false);
    var s2 := ReplaceAll(s1, "0t", "er", false);
    ReplaceAllChars(s0, "0rz", "ers", false);
    ReplaceAllChars(s1, "0t", "er", false);
    MissingCharNotContained(s2, "xX", 1);
    ReplaceAllAbsent(s2, "xX", "ck", false);
  }

  /** The normaliser leaves a canonical text as it is. */
  lemma PrepareFixesCanonical(s: string)
    requires Canonical(s)
    ensures Prepare(s) == s
  {
    assert LowerStr(s) == s;
    MissingCharNotContained(s, "0rz", 0);
    ReplaceAllAbsent(s, "0rz", "ers", false);
    MissingCharNotContained(s, "0t", 0);
    ReplaceAllAbsent(s, "0t", "er", false);
    MissingCharNotContained(s, "xX", 1);
    ReplaceAllAbsent(s, "xX", "ck", false);
    MissingCharNotContained(s, "0", 0);
    ReplaceAllAbsent(s, "0", "o", false);
    MissingCharNotContained(s, "!", 0);
    ReplaceAllAbsent(s, "!", "i", false);
    MissingCharNotContained(s, "3", 0);
    ReplaceAllAbsent(s, "3", "e", false);
    MissingCharNotContained(s, "4", 0);
    ReplaceAllAbsent(s, "4", "a", false);
    MissingCharNotContained(s, "5", 0);
    ReplaceAllAbsent(s, "5", "s", false);
  }

  /**
   * Characters that are neither upper-case nor part of any substitution
   * pattern (the digits 1, 2, 6, 7, 8, 9, for one) pass through untouched.
   */
  lemma PrepareKeepsChar(phrase: string, c: char)
    requires !IsUpper(c) && c !in "0rztxX!345"
    requires c in phrase
    ensures c in Prepare(phrase)
  {
    var i :| 0 <= i < |phrase| && phrase[i] == c;
    var s0 := LowerStr(phrase);
    assert s0[i] == c;
    var s1 := ReplaceAll(s0, "0rz", "ers", false);
    var s2 := ReplaceAll(s1, "0t", "er", false);
    var s3 := ReplaceAll(s2, "xX", "ck", false);
    var s4 := ReplaceAll(s3, "0", "o", false);
    var s5 := ReplaceAll(s4, "!", "i", false);
    var s6 := ReplaceAll(s5, "3", "e", false);
    var s7 := ReplaceAll(s6, "4", "a", false);
    ReplaceAllKeepsChar(s0, "0rz", "ers", c);
    ReplaceAllKeepsChar(s1, "0t", "er", c);
    ReplaceAllKeepsChar(s2, "xX", "ck", c);
    ReplaceAllKeepsChar(s3, "0", "o", c);
    ReplaceAllKeepsChar(s4, "!", "i", c);
    ReplaceAllKeepsChar(s5, "3", "e", c);
    ReplaceAllKeepsChar(s6, "4", "a", c);
    ReplaceAllKeepsChar(s7, "5", "s", c);
  }

  /** A phrase whose lower-cased form is canonical normalises to that form. */
  lemma PrepareOfLowerCanonical(phrase: string)
    requires Canonical(LowerStr(phrase))
    ensures Prepare(phrase) == LowerStr(phrase)
  {
    PrepareFixesCanonical(LowerStr(phrase));
    assert LowerStr(LowerStr(phrase)) == LowerStr(phrase);
  }

  /**
   * "Sh1t" normalises to "sh1t", which does not contain "shit": the digit 1
   * is not a substitution.
   */
  lemma DigitOneNotNormalised()
    ensures !Contains(Prepare("Sh1t"), "shit", false)
  {
    var s: string := "sh1t";
    assert LowerStr("Sh1t") == s;
    PrepareOfLowerCanonical("Sh1t");
    assert 'i' !in s;
    MissingCharNotContained(s, "shit", 2);
  }

  /** Normalising twice is normalising once. */
  lemma PrepareIdempotent(phrase: string)
    ensures Prepare(Prepare(phrase)) == Prepare(phrase)
  {
    PrepareCanonical(phrase);
    PrepareFixesCanonical(Prepare(phrase));
  }
}
