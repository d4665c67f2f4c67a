# censor-sensor in Dafny

A model of the profanity engine `CensorSensor` (src/CensorSensor.ts): a
tiered, locale-aware lexicon, a leetspeak normaliser, an exact token matcher
and a substring ("ish") matcher gated by severity tier, and two redactors
that rewrite matched text with a pluggable mask.

Layout, one module per component:

- `text.dfy` (`Text`): ASCII `toLowerCase`, the literal global replace that
  the normaliser's regular expressions and the redactor's escaped regular
  expression perform, the `includes` substring test, and `split(' ')` /
  `join(' ')`.
- `normalizer.dfy` (`Normalizer`): `prepareForParsing`.
- `lexicon.dfy` (`Lexicon`): `CensorTier` as the integers 1..5, dictionaries,
  the locale table, the effective lexicon (`currentDictionary`) and the tier
  gate.
- `matcher.dfy` (`Matcher`): `_isProfane`, `isProfane` and the set of keys the
  substring scan counts.
- `redactor.dfy` (`Redactor`): `cleanProfanity` and `cleanProfanityIsh` as
  functions of lexicon, gate and mask.
- `censor.dfy` (`Censor`): the class `CensorSensor`, whose fields the
  mutators update in place, with the loop-based scans and redactor as methods
  proved against the functions above.

Behaviour of the code that a reader might not expect, and that the model
follows:

- `removeWord` only deletes the custom entry. The blacklist it writes is
  never read, so a word of the locale's own dictionary stays profane
  (`Matcher.RemovedLocaleWordStaysProfane`).
- The normaliser does not touch the digit 1: the normal form of "Sh1t" does
  not contain "shit" (`Normalizer.DigitOneNotNormalised`), so the substring
  matcher does not find "shit" in it.
- The `xX`→`ck` substitution can never fire, because lower-casing runs first
  (`Normalizer.UpperXStepIsNoOp`).
- `cleanProfanity` looks up the lower-cased field, not the normalised one, so
  leetspeak is caught by `isProfane` but not redacted by `cleanProfanity`.
- `profaneIshWords` scans the phrase it is given as it is; only its callers
  normalise.
- Not every enabled lexicon word is profane on its own. `isProfane` compares
  each space-separated field of the normalised phrase with the keys, so a
  key holding an upper-case letter, any of 0 ! 3 4 5, or a space can never
  equal a field. That is why `Matcher.SingleWord`, `Matcher.TierGateToggle`
  and `Censor.TierGateRoundTrip` ask for a canonical, space-free word: the
  restriction is the code's, not the model's.
- An unknown locale yields an empty base dictionary, so the effective lexicon
  is then the custom dictionary alone.

## Model

| member | source | states |
|---|---|---|
| `Text.LowerStr` | src/CensorSensor.ts:76 | `toLowerCase` maps every character through ASCII lower-casing, leaves no upper-case letter, and is the identity on a text without upper-case letters |
| `Text.ContainsAtIndex` | src/CensorSensor.ts:103 | the substring test used for `includes` holds iff some index of the phrase starts an occurrence of the key |
| `Text.ReplaceAllChars` | src/CensorSensor.ts:76 | a global replace introduces no character found in neither the input nor the replacement |
| `Text.ReplaceAllRemovesChar` | src/CensorSensor.ts:76 | a global replace of one character by a text without it leaves none of that character |
| `Text.ReplaceAllKeepsChar` | src/CensorSensor.ts:76 | a character the pattern does not contain survives a global replace |
| `Text.ReplaceAllAbsent` | src/CensorSensor.ts:163-164 | a global replace of a non-empty pattern that does not occur is the identity |
| `Text.ReplaceAllClears` | src/CensorSensor.ts:163-164 | after a case-insensitive global replace of a non-empty, star-free fragment by "****" no case-insensitive occurrence of the fragment remains anywhere, seams included |
| `Text.SplitCount` | src/CensorSensor.ts:146 | `split(' ')` yields exactly one field more than the phrase has spaces |
| `Text.SplitFieldsSpaceFree` | src/CensorSensor.ts:157 | no field of `split(' ')` contains a space |
| `Text.JoinSplit` | src/CensorSensor.ts:146-150 | `join(' ')` undoes `split(' ')` |
| `Text.SplitJoin` | src/CensorSensor.ts:146-150 | `split(' ')` undoes `join(' ')` on a non-empty list of space-free fields |
| `Normalizer.PrepareCanonical` | src/CensorSensor.ts:75-77 | the normaliser's output has no upper-case letter and none of 0 ! 3 4 5 |
| `Normalizer.UpperXStepIsNoOp` | src/CensorSensor.ts:76 | the `xX`→`ck` step never changes anything, whatever the phrase |
| `Normalizer.PrepareFixesCanonical` | src/CensorSensor.ts:75-77 | a canonical text is its own normal form |
| `Normalizer.PrepareKeepsChar` | src/CensorSensor.ts:75-77 | a character that is neither upper-case nor in any substitution pattern (1, 2, 6-9, ...) survives normalisation |
| `Normalizer.PrepareOfLowerCanonical` | src/CensorSensor.ts:75-77 | a phrase whose lower-cased form is canonical normalises to that lower-cased form |
| `Normalizer.DigitOneNotNormalised` | src/CensorSensor.ts:76 | the normal form of "Sh1t" does not contain "shit" |
| `Normalizer.PrepareIdempotent` | src/CensorSensor.ts:75-77 | normalising twice equals normalising once |
| `Lexicon.DefaultTiersEnableAll` | src/CensorSensor.ts:26-32 | the initial gate has exactly the five tiers as keys, all enabled |
| `Lexicon.Effective` | src/CensorSensor.ts:37-39 | every word maps to its custom tier if it has one, else to the locale entry; keys are the union; an unknown locale yields exactly the custom dictionary |
| `Lexicon.EffectiveAddWord` | src/CensorSensor.ts:64-67 | adding a custom word sets exactly that entry of the effective lexicon |
| `Lexicon.EffectiveRemoveWord` | src/CensorSensor.ts:69-72 | removing a custom word makes the effective lexicon fall back to the locale entry for it and leaves every other word unchanged |
| `Matcher.AnyHit` | src/CensorSensor.ts:80-92 | `some` with `_isProfane` holds iff some token is a key whose tier is enabled |
| `Matcher.IsProfanePhrase` | src/CensorSensor.ts:89-93 | `isProfane` holds iff some `' '`-field of the normalised phrase is a key whose tier is enabled |
| `Matcher.EmptyPhrase` | src/CensorSensor.ts:89-93 | the empty phrase is profane iff the empty word is itself an enabled key |
| `Matcher.SingleWord` | src/CensorSensor.ts:80-93 | a canonical, space-free word is profane iff it is an enabled key |
| `Matcher.TierGateToggle` | src/CensorSensor.ts:55-61 | disabling a lexicon word's tier makes it not profane, enabling the tier again makes it profane, the lexicon untouched |
| `Matcher.AddedWordIsProfane` | src/CensorSensor.ts:64-67 | after adding a canonical word with an enabled tier, it is profane |
| `Matcher.RemovedLocaleWordStaysProfane` | src/CensorSensor.ts:69-72 | removing a word the locale dictionary holds with an enabled tier leaves it profane |
| `Matcher.UnknownWordNotHit` | src/CensorSensor.ts:80-84 | a word in neither the custom nor the locale dictionary is never a hit |
| `Redactor.CleanExactFields` | src/CensorSensor.ts:142-153 | when the mask yields no space for the fields that are hits (masks that echo the word included), the fields of the result are the fields of the phrase, each replaced by its mask iff its lower-cased form is an enabled key, so the field count is kept |
| `Redactor.DefaultMaskKeepsFieldCount` | src/CensorSensor.ts:34 | with the default "****" mask `cleanProfanity` keeps the number of fields |
| `Redactor.BracketMaskKeepsFieldCount` | src/CensorSensor.ts:142-153 | with a mask that echoes the word between brackets, `cleanProfanity` keeps the number of fields |
| `Redactor.CleanExactNoHit` | src/CensorSensor.ts:142-153 | when no lower-cased field is an enabled key, `cleanProfanity` returns the phrase itself |
| `Redactor.FoldStepsNoHit` | src/CensorSensor.ts:160-166 | fragments without a qualifying key cause no replacement |
| `Redactor.CleanIshNoHit` | src/CensorSensor.ts:155-169 | when no original fragment has a qualifying key, `cleanProfanityIsh` returns the phrase unchanged |
| `Redactor.RepeatsAreNoOps` | src/CensorSensor.ts:162-165 | with the "****" mask and a non-empty star-free fragment, every duplicate replacement after the first is a no-op |
| `Redactor.StepClearsFragment` | src/CensorSensor.ts:160-165 | with the default mask, once a qualifying fragment's step has run the running phrase holds no case-insensitive occurrence of it, and the step equals one replacement |
| `Censor.CensorSensor.constructor` | src/CensorSensor.ts:20-35 | a new engine has locale "en", no custom words, an empty blacklist, all five tiers enabled and no custom mask |
| `Censor.CensorSensor.AddLocale` | src/CensorSensor.ts:46-48 | the locale table maps the name to the dictionary, replacing any earlier one; when the name is the active locale, the effective lexicon is now that dictionary overlaid with the custom words; the gate keeps one flag per tier |
| `Censor.CensorSensor.SetLocale` | src/CensorSensor.ts:50-52 | the locale is switched and the effective lexicon is now taken from it; the gate keeps one flag per tier |
| `Censor.CensorSensor.DisableTier` | src/CensorSensor.ts:55-57 | only the given tier's flag changes, to disabled; the gate keeps one flag per tier |
| `Censor.CensorSensor.EnableTier` | src/CensorSensor.ts:59-61 | only the given tier's flag changes, to enabled; the gate keeps one flag per tier |
| `Censor.CensorSensor.AddWord` | src/CensorSensor.ts:64-67 | the custom dictionary and the effective lexicon map the word to the tier (UserAdded by default); the word leaves the blacklist; the gate keeps one flag per tier |
| `Censor.CensorSensor.RemoveWord` | src/CensorSensor.ts:69-72 | the word leaves the custom dictionary and enters the blacklist; the effective lexicon falls back to the locale entry for it, other words unchanged; the gate keeps one flag per tier |
| `Censor.CensorSensor.IsProfane` | src/CensorSensor.ts:89-93 | holds iff some field of the normalised phrase is an enabled key of the current lexicon |
| `Censor.CensorSensor.ScanIsProfaneIsh` | src/CensorSensor.ts:95-107 | the flag is set iff some enabled key occurs in the phrase, whatever order the keys are visited in |
| `Censor.CensorSensor.IsProfaneIsh` | src/CensorSensor.ts:109-113 | holds iff some enabled key of the current lexicon occurs in the normalised phrase |
| `Censor.CensorSensor.ScanProfaneIshWords` | src/CensorSensor.ts:115-125 | the result holds the original fragment once per enabled key occurring in the phrase, and nothing else, whatever the visiting order |
| `Censor.CensorSensor.ProfaneIshWords` | src/CensorSensor.ts:127-131 | the same over the current lexicon, on the phrase as given |
| `Censor.CensorSensor.SetCleanFunction` | src/CensorSensor.ts:133-135 | the mask in use is now the given function; the gate keeps one flag per tier |
| `Censor.CensorSensor.ResetCleanFunction` | src/CensorSensor.ts:137-139 | the mask in use is the default one again, yielding "****" for every word; the gate keeps one flag per tier |
| `Censor.CensorSensor.CleanProfanity` | src/CensorSensor.ts:142-153 | when the mask in use yields no space for the fields that are hits, the result's fields are the phrase's fields, masked iff the lower-cased field is an enabled key; with no such field the phrase is returned unchanged |
| `Censor.CensorSensor.CleanProfanityIsh` | src/CensorSensor.ts:155-169 | the result is the fold, over the fields of the original phrase in order, of one case-insensitive global replacement of the field by its mask per enabled key in the normalised field |
| `Censor.TierGateRoundTrip` | src/CensorSensor.ts:55-61 | on a fresh engine, a word added with tier t is profane, is not after disabling t, and is again after enabling t |

## Left out

- The locale table `AllLocales` is external data and is shared by every
  instance; here each engine holds its own table, given to the constructor,
  and `AddLocale` updates that one only.
- The regular-expression escaping in `cleanProfanityIsh` is not modelled
  character by character; the replacement is modelled as the literal match
  it achieves. `$&`, `$1` and similar patterns in the mask's output are not
  interpreted: the mask's text is inserted as it is.
- Case mapping is ASCII only; Unicode lower-casing and Unicode case folding
  of the `i` flag are not modelled.
- A mask is a total Dafny function; arbitrary JavaScript closures (side
  effects, exceptions) are not modelled, and `setCleanFunction(null)` is
  modelled only through `ResetCleanFunction`.
- The order of `Object.keys` is not modelled: the scans choose keys in an
  arbitrary order, and their contracts fix the results for every order.
- Tiers outside 1..5, and dictionary values that are not tiers, cannot be
  written. JavaScript accepts them, because the gate is read by property
  access (src/CensorSensor.ts:84, 103, 121): a value equal to 1..5 as a
  string, such as "2", acts as that tier; any other value is disabled unless
  `enableTier` was called with it, which also adds a gate entry beyond the
  five that `Valid` allows. A falsy value (0, "") is rejected by `_isProfane`
  (src/CensorSensor.ts:83) before the gate is read, so after `enableTier(0)`
  a word stored with 0 counts for `isProfaneIsh` and `profaneIshWords`
  (src/CensorSensor.ts:103, 121) but never for `isProfane` or
  `cleanProfanity`.
- Dafny strings are sequences of Unicode scalar values, not UTF-16 code
  units. The two differ for lone surrogates, and for the empty-fragment
  global replace next to characters outside the Basic Multilingual Plane
  (src/CensorSensor.ts:163-164), which JavaScript applies between the two
  halves of a surrogate pair.
- Keys inherited from `Object.prototype` (such as "constructor") are not
  modelled; the dictionaries are plain maps.
