# A verified model of the event platform's rewrite scripts and helpers

This project models, in Dafny, the deterministic core of a college event
platform and the two scripts that restyle its pages.

**The rewrite scripts.** `apply-tokens.py` turns raw colour classes into
design tokens. `apply-motion.py` adds transition and hover classes. Each
script reads a page as text and rewrites it through an ordered list of
substitutions. The model keeps each substitution's own semantics:

- Python's `str.replace` and `re.sub`;
- leftmost, non-overlapping matches in a single pass;
- an optional `count` cap;
- whole-file "already contains" guards;
- the platform profile that gates the card rules.

Each regular expression becomes a hand-written matcher for its one shape
(`Rewrite` in `engine.dfy`). The rule lists become ordered catalogs
(`DesignTokens`, `Motion`), and the scripts' statement sequences become
loops that fold the catalogs over the text. The proofs cover these points:

- rule order;
- rules that can never fire;
- guards and caps;
- suffix-only insertion;
- whether a second run changes anything, with concrete texts where it does
  (`TokenExamples`).

**The TypeScript helpers.**

| module | source file | what it covers |
|---|---|---|
| `LoadManagement` | `src/lib/load-management.ts` | the circuit breaker and the TTL cache, as classes; the cache-header builder |
| `RazorpayRoute` | `src/lib/razorpay-route.ts` | bank, PAN and IFSC format checks; the name-match rule |
| `OrganizerHelpers` | `src/lib/organizer-helpers.ts` | the onboarding form validator; the formatters and the payload builder |
| `CertificateHelpers` | `src/lib/certificate-helpers.ts` | name parsing, file names, batching, estimates, colours and fonts for certificates |
| `PdfUtils` | `src/lib/pdf-utils.ts` | certificate configuration checks and hex colour parsing |
| `CertificateGenerate` | the certificate generate route | XML escaping and text anchoring |
| `AnalyticsQueue` | `src/lib/analytics-queue.ts` | the offline analytics queue: dedup, track, flush and clear |
| `Offline` | `src/lib/offline.ts` | retry with back-off; the stored action queue |
| `Colleges` | `src/lib/colleges.ts` | college search and the state list |
| `CertificateFonts`, `Fonts` | the two font catalogs | the catalogs and their look-ups |
| `EventSchedule` | `src/hooks/useEventSchedule.ts` | the multi-day schedule state, as a class |
| `Proxy` | `src/proxy.ts` | the dashboard route guard |
| `UploadImage` | the image upload route | the validation chain |
| `UploadRecipients` | the recipient upload route | the recipient extraction rules |

`Text` holds the JavaScript and Python string primitives the other modules
share:

- ASCII case mapping;
- `trim` with JavaScript white space;
- `split` on one character;
- `filter` and `find`;
- the string order that `sort()` uses;
- decimal printing.

**Inputs that become parameters.** Clocks, random values, storage answers,
network outcomes and the results of library calls come in as parameters.
Examples are `now` for the breaker and the cache, the outcome of each send,
the base64 text of an e-mail, and the rows of a spreadsheet.

**Where the description and the code differ, the model follows the code:**

- An unknown profile skips the card rules silently. It does not raise an error.
- The recipient e-mail is read from the `Email`, `email` and `Student Email`
  columns. Those are the columns the route reads.

## Model

| member | source | states |
|---|---|---|
| Rewrite.DigitsEnd | apply-tokens.py:42 | the end of the greedy `\d+` run, with `\d` read as Python reads it in a text pattern (any Unicode decimal digit): every character passed over is a decimal digit and the one after it is not |
| Rewrite.ClassQuote | apply-motion.py:19 | the backtracking search over `[^>]*className="` returns the position of a double quote past a `className="` in range (the value's closing quote) |
| Rewrite.ClassQuoteMisses | apply-motion.py:19 | the search finds nothing exactly when no `className="` in range suits the pattern |
| Rewrite.ClassQuoteSees | apply-motion.py:19 | the search finds a start once any `className="` in range suits the pattern |
| Rewrite.TabSetter | apply-motion.py:40 | the search over `setActiveTab[^>]*className="[^"]*"` returns the position of a double quote after its start |
| Rewrite.TabClick | apply-motion.py:40 | the search over `onClick=.*setActiveTab...` returns the position of a double quote after its start |
| Rewrite.LiteralAt | apply-tokens.py:11 | a `str.replace` match at `k` is exactly an occurrence of the non-empty target there, and it deletes the target |
| Rewrite.DelimitedAt | apply-tokens.py:10 | a match at `k` is the word followed by a delimiter (`"`, white space, and `/` for the slash form); the delimiter is kept |
| Rewrite.DigitRunAt | apply-tokens.py:42 | a match at `k` is the prefix followed by one or more Unicode decimal digits, and it takes the whole digit run |
| Rewrite.ClassAttrAt | apply-motion.py:15 | a match at `k` is `className="` whose value holds the needle; the suffix goes before the closing quote, and with the `(?! transition)` lookahead (apply-motion.py:63) a following ` transition` blocks it |
| Rewrite.TagClassAt | apply-motion.py:19 | a match at `k` is an opened tag with a suitable `className="` before the tag's `>`, with the suffix placed before the value's closing quote |
| Rewrite.TabButtonAt | apply-motion.py:40 | a match at `k` is a `<button` with a tab-switching `onClick` and a class attribute after it |
| Rewrite.MatchAt | apply-tokens.py:10-57 | a match found at `k` starts with the pattern's leading word and describes an in-bounds, ordered deletion |
| Rewrite.TagClassFound | apply-motion.py:19 | a tag pattern matches at `k` when the tag opens there and some `className="` before the tag's `>` suits it |
| Rewrite.TagClassSkipped | apply-motion.py:19 | an opened tag is skipped when no `className="` before its `>` suits the pattern |
| Rewrite.FindFrom | apply-tokens.py:10-57 | the search returns the leftmost position at or after `i` where the pattern matches, and nothing when there is none |
| Rewrite.FindSkips | apply-tokens.py:10-57 | the search passes over text that lacks the first character of the pattern's leading word |
| Rewrite.HitsChain | apply-motion.py:35 | the hits of a pass are ordered, disjoint and inside the text, and a cap of `n` allows at most `n` of them |
| Rewrite.Sub | apply-tokens.py:10-57 | definition of `re.sub(pattern, repl, text, count)` over the patterns of the scripts; no contract of its own: SubIsSplice, HitsChain, CapTakesFirst and NoLeadNoChange state what a pass does |
| Rewrite.SubIsSplice | apply-tokens.py:10-57 | the rewritten text is the input with exactly the hits of the pass spliced in and everything between them kept |
| Rewrite.CapTakesFirst | apply-motion.py:35 | a pass with `count=n` rewrites exactly the first `n` matches an uncapped pass would rewrite, in the same scan order |
| Rewrite.NoLeadNoChange | apply-tokens.py:10-57 | a pass that finds no match returns its input unchanged |
| Rewrite.RewriteLeavesInserted | apply-tokens.py:10-57 | when a pass rewrote something, its replacement text occurs in the result |
| Rewrite.InsertionOnly | apply-motion.py:13-68 | a pass of a `\1 suffix"` pattern keeps every character of the input and only adds the suffix just before closing quotes of the input |
| Rewrite.LoneAttribute | apply-motion.py:15 | a lone `className` attribute matches exactly when its value holds the needle, and then the suffix is appended inside the quotes |
| Rewrite.AttributeStacks | apply-motion.py:63 | a lone attribute holding the needle gets the suffix again on every pass, even when its value already ends with that suffix |
| Rewrite.NoOverlapBy | apply-tokens.py:10-57 | a character-level sufficient condition for a word never overlapping an inserted text |
| Rewrite.NoOverlapAround | apply-tokens.py:10-57 | a second character-level sufficient condition for a word never overlapping an inserted text |
| Rewrite.NoOverlapChar | apply-tokens.py:10-57 | a single character never overlaps a text that does not hold it |
| Rewrite.Straddle | apply-tokens.py:10-57 | an occurrence of `w` in `x + m + y` lies wholly inside `x` or wholly inside `y` when `w` never overlaps `m` |
| Rewrite.AbsentAround | apply-tokens.py:10-57 | a word cannot appear around an inserted text it never overlaps |
| Rewrite.SpliceKeepsAbsent | apply-tokens.py:10-57 | a kept slice of the input followed by the rest of a splice has no occurrence of a word absent from the input |
| Rewrite.SliceAbsent | apply-tokens.py:10-57 | a slice of a text without `w` has no `w` either |
| Rewrite.PassKeepsAbsent | apply-tokens.py:10-57 | a pass whose inserted text cannot overlap `w` never creates `w` in text that lacked it |
| Rewrite.GapAbsent | apply-tokens.py:11 | a slice where `w` starts nowhere has no `w` |
| Rewrite.ReplaceRemoves | apply-tokens.py:11 | an uncapped `replace(w, r)` leaves no `w` behind when `r` cannot overlap `w` |
| Rewrite.DigitRunTakesAllDigits | apply-tokens.py:42 | `prefix\d+` consumes every decimal digit after the prefix, of any script: prefix, digit run and a tail without the prefix come out as the replacement followed by the tail |
| Rewrite.NoLeadNoMatch | apply-tokens.py:10-57 | a search from `i` finds nothing when the leading word is absent from there on |
| Rewrite.SubSingle | apply-tokens.py:10-57 | a pass over a text whose only match starts at its first character rewrites just that match |
| Rewrite.SubNothing | apply-tokens.py:10-57 | a pass over a text with no match at its start and no leading word after it changes nothing |
| Rewrite.ReplaceSelf | apply-tokens.py:34 | `replace(w, w)` changes nothing |
| Rewrite.ApplyRule | apply-motion.py:32-35 | definition of one rule of the scripts: the guard is tested on the whole text, and the pass runs only when it holds; no contract of its own: GuardedIdempotent and DeadRule state its properties |
| Rewrite.ApplyAll | apply-tokens.py:9-57 | definition of the scripts' loop over their rule lists, first rule first; no contract of its own: Apply, ApplyAllFixed and ApplyAllThrough state its properties |
| Rewrite.Apply | apply-tokens.py:9-57 | the run loop rebinds the content once per rule, in order; the result is the fold of the rules over the input |
| Rewrite.ApplyAllFixed | apply-tokens.py:9-57 | rules that each leave a text unchanged leave it unchanged together |
| Rewrite.ApplyAllThrough | apply-tokens.py:9-57 | a run whose first rule turns `s` into `t`, whose middle rules leave `t` alone and whose last rule turns `t` into `u` turns `s` into `u` |
| Rewrite.GuardedIdempotent | apply-motion.py:34 | a rule whose inserted text blocks its own guard changes nothing when run a second time |
| Rewrite.RulesKeepAbsent | apply-tokens.py:9-57 | text without `w` stays without it through rules that are each harmless to `w` |
| Rewrite.NoneOf | apply-tokens.py:9-57 | no character of a text is one of a given set, stated character by character |
| Rewrite.RulesKeepCharsOut | apply-tokens.py:9-57 | text without any character of a set keeps them all out through rules that each keep them out |
| Rewrite.UntouchedByRules | apply-tokens.py:9-57 | text holding none of the rules' leading words passes through the rules unchanged |
| Rewrite.RulesIdleWithout | apply-tokens.py:9-57 | text lacking every character of a set passes untouched through rules whose leading words each hold one of them |
| Rewrite.DeadRule | apply-tokens.py:9-57 | a rule that leaves unchanged the text it is given can be dropped from the list without changing the result |
| DesignTokens.Sections | apply-tokens.py:9-57 | the whole rule list is the six comment groups run one after another |
| DesignTokens.ApplyDesignTokens | apply-tokens.py:4-62 | every one of the thirty-four substitutions runs once, in source order, and the function reports success; the output is the fold of the rule list over the input |
| DesignTokens.Gray200Gone | apply-tokens.py:23 | after the first border rule no `border-gray-200` is left |
| DesignTokens.Gray200Kept | apply-tokens.py:24 | the second border rule inserts nothing that could form `border-gray-200` again |
| DesignTokens.BordersRemoveGray200 | apply-tokens.py:23-25 | the third border rule sees no `border-gray-200` |
| DesignTokens.Border2Idle | apply-tokens.py:25 | `border-2 border-gray-200` contains `border-gray-200`, so that rule cannot fire on text without `border-gray-200` |
| DesignTokens.Border2IsDead | apply-tokens.py:23-25 | the third border rule never fires: dropping it from the pass changes no output, for every input |
| DesignTokens.BorderPrimaryIsIdentity | apply-tokens.py:34 | `replace('border-primary', 'border-primary')` is a no-op: dropping it from the pass changes no output, for every input |
| DesignTokens.DeadSelfRule | apply-tokens.py:34 | a rule replacing a word by itself can be dropped from any rule list |
| DesignTokens.Gray100Gone | apply-tokens.py:12 | after the `bg-gray-100` rule none is left |
| DesignTokens.BordersKeepGray100Out | apply-tokens.py:23-25 | the border rules bring no `bg-gray-100` back |
| DesignTokens.HoverGray100Idle | apply-tokens.py:38 | `hover:bg-gray-100` contains `bg-gray-100`, so that rule cannot fire on text without `bg-gray-100` |
| DesignTokens.Gray100GoneBeforeHover | apply-tokens.py:12-38 | the text the second hover rule sees has no `bg-gray-100` |
| DesignTokens.HoverGray100IsDead | apply-tokens.py:12-38 | the `hover:bg-gray-100` rule never fires because line 12 already replaced every `bg-gray-100` and nothing in between brings one back: dropping it changes no output |
| TokenExamples.WhiteBackgroundKeepsSlash | apply-tokens.py:10 | `bg-white/80` becomes `bg-bg-card/80`: `/` is one of the rule's delimiters and is kept |
| TokenExamples.WhiteBackgroundNeedsDelimiter | apply-tokens.py:10 | `bg-white-x` is left alone: a hyphen is not a delimiter |
| TokenExamples.WhiteTextRejectsSlash | apply-tokens.py:20 | `text-white/80` is left alone: the rule accepts only a quote or white space after the word |
| TokenExamples.WhiteTextKeepsQuote | apply-tokens.py:20 | `text-white"` becomes `text-text-inverse"`, keeping the quote |
| TokenExamples.GrayLiteralIgnoresBoundary | apply-tokens.py:11 | plain replacement ignores word boundaries: `bg-gray-500` becomes `bg-bg-muted0` |
| TokenExamples.GreenLiteralIgnoresBoundary | apply-tokens.py:50 | `bg-green-500` becomes `bg-successSoft0` under the `bg-green-50` rule |
| TokenExamples.BrandSoftNotDelimited | apply-tokens.py:28 | the delimited `bg-brand` rule leaves `bg-brand-soft` alone |
| TokenExamples.BrandSoftRewritten | apply-tokens.py:30 | the later plain `bg-brand-soft` rule then rewrites it to `bg-primarySoft` |
| TokenExamples.TextBrandGone | apply-tokens.py:31 | after the plain `text-brand` rule no `text-brand` remains, whatever followed it |
| TokenExamples.RedShadeToError | apply-tokens.py:42 | `text-red-` followed by any run of decimal digits (of any script) becomes `text-error` |
| TokenExamples.GreenShadeToSuccess | apply-tokens.py:49 | `text-green-` followed by any run of decimal digits (of any script) becomes `text-success` |
| TokenExamples.TokenFreeUntouched | apply-tokens.py:4-62 | a file that mentions none of the class prefixes comes out of the whole pass exactly as it went in |
| TokenExamples.GluedLacksGray900 | apply-tokens.py:15 | on the glued file `border-gray-200ext-gray-900` the text-colour rules of the first run find no `text-gray-900` |
| TokenExamples.GluedOnceHasGray900 | apply-tokens.py:23 | the first run's border rule turns that file into one holding `text-gray-900` |
| TokenExamples.LeadingGray200 | apply-tokens.py:23 | a leading `border-gray-200` with no other `b` after it is the one occurrence the first border rule rewrites |
| TokenExamples.TrailingGray900 | apply-tokens.py:15 | a trailing `text-gray-900` with no `t` before it is the one occurrence the first text-colour rule rewrites |
| TokenExamples.BackgroundsIdle | apply-tokens.py:10-12 | text without `w`, `5` or `1` passes the background rules untouched |
| TokenExamples.TextColoursIdle | apply-tokens.py:15-20 | text without `text-gray-900`, `8`, `7`, `6`, `5` or `w` passes the text-colour rules untouched |
| TokenExamples.BrandIdle | apply-tokens.py:28-34 | text without `n`, `c` or `p` passes the brand rules untouched |
| TokenExamples.HoverIdle | apply-tokens.py:37-39 | text without `h` passes the hover rules untouched |
| TokenExamples.ErrorsIdle | apply-tokens.py:42-46 | text without `text-red-`, `5`, `h` or `6` passes the error rules untouched |
| TokenExamples.SuccessesIdle | apply-tokens.py:49-53 | text without `n` passes the success rules untouched |
| TokenExamples.WarningsIdle | apply-tokens.py:56-57 | text without `5` passes the warning rules untouched |
| TokenExamples.RestOfTextColoursKeepOut | apply-tokens.py:16-57 | no rule after the first text-colour rule brings a `g` or a `5` back |
| TokenExamples.GluedBorders | apply-tokens.py:23-25 | the first border rule is the only border rule that fires on the glued file |
| TokenExamples.GluedFirstRun | apply-tokens.py:4-62 | the first run of the pass rewrites only the border class of the glued file |
| TokenExamples.GluedOnceTextColours | apply-tokens.py:15 | in the second run the first text-colour rule fires and removes the only `g` |
| TokenExamples.GluedSecondRunLacksG | apply-tokens.py:4-62 | the second run leaves no `g` |
| TokenExamples.NotIdempotent | apply-tokens.py:4-62 | running the pass twice gives a different file than running it once (the glued file) |
| Motion.MotionRules | apply-motion.py:4-68 | the rules run for a profile, in order: cards only for `student` and `organizer`, then tabs, inputs and hover transitions; the button patterns are built but never applied |
| Motion.ApplyMotionTokens | apply-motion.py:4-73 | `apply_motion_tokens` without the file read and write: the output is the fold of the profile's rules, and it reports success |
| Motion.AllInsertions | apply-motion.py:13-68 | every rule of the pass only inserts text before closing quotes |
| Motion.StepOnlyInserts | apply-motion.py:13-68 | each step keeps every character of its input and only adds its suffix just before closing quotes of the input |
| Motion.OtherProfilesSkipCards | apply-motion.py:24 | any profile other than `student` or `organizer` leaves cards alone and runs the remaining rules without error |
| Motion.CardGuardIsWholeFile | apply-motion.py:34 | once a lift effect is anywhere in the file, no card changes |
| Motion.CardSuffixHasLift | apply-motion.py:29 | the card suffix holds the marker the card guard tests for |
| Motion.CardsOnce | apply-motion.py:32-35 | a second card pass changes nothing |
| Motion.CardsCapped | apply-motion.py:35 | the card pass rewrites at most five attributes, exactly the first five an unlimited pass would rewrite, in scan order |
| Motion.TabGuard | apply-motion.py:45-46 | the tab rule fires only in a file that mentions `setActiveTab` and has no `transition-all`, and then on at most one button |
| Motion.FastAllHasTransitionAll | apply-motion.py:41 | the tab suffix holds the marker the tab guard tests for |
| Motion.TabOnce | apply-motion.py:44-46 | the tab suffix blocks its own guard, so a second tab pass changes nothing |
| Motion.InputsCapped | apply-motion.py:57 | each input rule rewrites at most ten tags, the first ten in scan order |
| Motion.InputSkippedPerLine | apply-motion.py:50-53 | an input or textarea tag is skipped when every `className="` in it has an empty value or `transition` on the rest of its line |
| Motion.InputTakenPerLine | apply-motion.py:50-53 | an input or textarea tag with some `className="` that has a value and no `transition` on the rest of its line is rewritten |
| Motion.ScaleAvoidsSuffixes | apply-motion.py:16-68 | neither scale class can overlap any suffix the pass inserts |
| Motion.ScaleNeverInserted | apply-motion.py:13-21 | the button patterns are never applied: a file without `active:scale-press` or `hover:scale-hover` still lacks it after the pass, for every profile |
| Motion.LiftOnlyFromCards | apply-motion.py:24-35 | only the card group inserts a lift effect: under any other profile a file without `hover:-translate-y` still lacks it after the pass |
| Motion.HoverBgAppends | apply-motion.py:63 | the `hover:bg-` rule appends its suffix to a lone attribute holding `hover:bg-`, whatever transition classes the value already has |
| Motion.HoverBgStacks | apply-motion.py:63 | running the `hover:bg-` rule twice stacks two fast transitions on the same attribute |
| Motion.CardStep | apply-motion.py:28-29 | the card rule on a lone card attribute without a lift effect appends the card suffix |
| Motion.TabIdle | apply-motion.py:45 | a file holding `transition-all` keeps its tab buttons as they are |
| Motion.InputsIdle | apply-motion.py:50-53 | a file without `<` opens no tag, so the input rules find nothing |
| Motion.HoverBgIdle | apply-motion.py:63 | the `hover:bg-` rule leaves a lone attribute without `hover:bg-` alone |
| Motion.HoverShadowHit | apply-motion.py:64 | the `hover:shadow-` rule appends the medium transition to a lone attribute holding `hover:shadow-` |
| Motion.CardGetsTwoTransitions | apply-motion.py:24-68 | under `student` or `organizer` a lone card attribute without a lift effect or `hover:bg-` gets the card suffix and then, since that suffix holds `hover:shadow-`, the medium transition too |
| RazorpayRoute.CollapseRuns | src/lib/razorpay-route.ts:188 | `.replace(/\s+/g, " ")`: the result has no two adjacent spaces and no other white space, is empty only for empty input, starts or ends with a space exactly when the input starts or ends with white space, and adds no upper-case letter |
| RazorpayRoute.Normalize | src/lib/razorpay-route.ts:184-188 | the normal form is canonical: trimmed, lower case, single-spaced; NormalizeIgnoresCase, NormalizeIgnoresPadding and NormalizeIgnoresRuns state what it ignores |
| RazorpayRoute.NormalizeIdempotent | src/lib/razorpay-route.ts:184-188 | normalising twice is normalising once |
| RazorpayRoute.NormalizeIgnoresCase | src/lib/razorpay-route.ts:184-188 | names that differ only in letter case normalise alike |
| RazorpayRoute.NormalizeUntrimmed | src/lib/razorpay-route.ts:184-188 | text with no white space at either end is normalised without trimming |
| RazorpayRoute.NormalizeIgnoresRuns | src/lib/razorpay-route.ts:184-188 | between two words, any run of white space normalises to one space |
| RazorpayRoute.NormalizeIgnoresPadding | src/lib/razorpay-route.ts:184-188 | white space added before or after a name never changes its normal form |
| RazorpayRoute.Words | src/lib/razorpay-route.ts:198-199 | `split(" ")` of a normal form gives at least one word |
| RazorpayRoute.NamesMatch | src/lib/razorpay-route.ts:179-206 | `validatePanBankNameMatch`: names with equal normal forms always match |
| RazorpayRoute.NamesMatchByNormalForm | src/lib/razorpay-route.ts:190-191 | the match sees each name only through its normal form, on either side |
| RazorpayRoute.NamesMatchIgnoresCase | src/lib/razorpay-route.ts:186 | letter case never changes the verdict, on either side |
| RazorpayRoute.NamesMatchIgnoresRuns | src/lib/razorpay-route.ts:187 | the width of the gap between two words never changes the verdict |
| RazorpayRoute.NamesMatchIgnoresPadding | src/lib/razorpay-route.ts:184-191 | white space added before or after either name never changes the verdict |
| RazorpayRoute.CanonicalFixed | src/lib/razorpay-route.ts:184-188 | text already in normal form is its own normal form |
| RazorpayRoute.NamesMatchWhenWordsDiffer | src/lib/razorpay-route.ts:198-205 | names with different word lists match exactly when every word of the one with fewer words (the first on a tie) is a word of the other |
| RazorpayRoute.NamesMatchNotSymmetric | src/lib/razorpay-route.ts:202-205 | the match is not symmetric: `u u` matches `u v`, but `u v` does not match `u u` |
| RazorpayRoute.IsIfsc | src/lib/razorpay-route.ts:212-215 | definition of the IFSC pattern on the upper-cased code; no contract of its own: IfscChars states it character by character |
| RazorpayRoute.IfscChars | src/lib/razorpay-route.ts:212-215 | a code is a valid IFSC exactly when it has eleven characters: four letters of either case, `0`, then six letters or digits |
| RazorpayRoute.UpperKeepsKinds | src/lib/razorpay-route.ts:214 | upper-casing turns exactly the letters into upper-case letters and keeps digits and `0` where they were |
| RazorpayRoute.IsPan | src/lib/razorpay-route.ts:222-225 | definition of the PAN pattern on the upper-cased number; no contract of its own: PanChars states it character by character |
| RazorpayRoute.PanChars | src/lib/razorpay-route.ts:222-225 | a number is a valid PAN exactly when it has ten characters: five letters of either case, four digits, one letter |
| RazorpayRoute.FormatsIgnoreCase | src/lib/razorpay-route.ts:212-225 | lower- or upper-casing a code never changes whether it is a valid IFSC or PAN |
| RazorpayRoute.IsBankAccount | src/lib/razorpay-route.ts:231-234 | a valid account number has 9 to 18 characters and no white space (no upper-casing is applied) |
| OrganizerHelpers.FieldErrorMeaning | src/lib/organizer-helpers.ts:23-62 | each field gets a message exactly when its check fails: type not CLUB or FEST, names under three characters after trimming, PAN, account or IFSC malformed, fest id missing for a FEST |
| OrganizerHelpers.CodeError | src/lib/organizer-helpers.ts:38-57 | a required code gets a message exactly when it is not well formed: "required" when it is empty, the format message otherwise |
| OrganizerHelpers.ValidIffNoErrors | src/lib/organizer-helpers.ts:65 | the form is valid exactly when no field has a message |
| OrganizerHelpers.ValidateOrganizerForm | src/lib/organizer-helpers.ts:18-68 | the errors object holds exactly the message of each failing field, and `valid` holds exactly when the form passes every check |
| OrganizerHelpers.AddIf | src/lib/organizer-helpers.ts:24-26 | a failing check sets its field's message; otherwise the errors are unchanged |
| OrganizerHelpers.AddCodeError | src/lib/organizer-helpers.ts:39-43 | "required" for an empty value, the format message for a malformed one, no change otherwise |
| OrganizerHelpers.Step | src/lib/organizer-helpers.ts:23-62 | one field checked: its message, if any, is added and the fields checked before keep theirs |
| OrganizerHelpers.NoEntriesNoErrors | src/lib/organizer-helpers.ts:65 | `Object.keys(errors).length === 0` exactly when the form is valid |
| OrganizerHelpers.MaskBankAccount | src/lib/organizer-helpers.ts:119-122 | the mask keeps the length; inputs shorter than four come back as they are; otherwise the last four characters are kept and every earlier one is `*` |
| OrganizerHelpers.Stars | src/lib/organizer-helpers.ts:121 | `"*".repeat(n)` has `n` characters, all `*` |
| OrganizerHelpers.MaskIdempotent | src/lib/organizer-helpers.ts:119-122 | masking a masked number changes nothing |
| OrganizerHelpers.FormatPan | src/lib/organizer-helpers.ts:105-107 | the result is the first ten characters of the input (all of it when shorter), each upper-cased; a valid PAN comes out upper-cased and still valid |
| OrganizerHelpers.FormatPanIdempotent | src/lib/organizer-helpers.ts:105-107 | formatting a formatted PAN changes nothing |
| OrganizerHelpers.FormatIfsc | src/lib/organizer-helpers.ts:112-114 | the result is the input with every character upper-cased, so no lower-case letter is left, and its validity as an IFSC is unchanged |
| OrganizerHelpers.KycStatusMessage | src/lib/organizer-helpers.ts:86-99 | pending and verified give their fixed texts; rejected gives the failure prefix followed by the reason, or by the contact-support text when the reason is absent or empty; any other status gives the empty string, and only it does |
| OrganizerHelpers.RejectedWithoutReason | src/lib/organizer-helpers.ts:96 | a rejection with no reason or an empty one reads the same: the prefix followed by the contact-support fallback |
| OrganizerHelpers.KycMessageNamesStatus | src/lib/organizer-helpers.ts:86-99 | a non-empty message determines the status it was written for, whatever the rejection reason |
| OrganizerHelpers.CanReceivePayouts | src/lib/organizer-helpers.ts:127-129 | payouts are allowed exactly for a verified status, whose message is the verified one |
| OrganizerHelpers.StripSpace | src/lib/organizer-helpers.ts:149 | `.replace(/\s/g, "")` keeps exactly the characters that are not JavaScript white space, in order; text without white space is unchanged |
| OrganizerHelpers.BuildOnboardingPayload | src/lib/organizer-helpers.ts:141-153 | type kept, names trimmed, PAN and IFSC upper-cased, account with its white space removed (a valid one unchanged), PAN and IFSC validity unchanged, and `fest_id` present exactly when truthy and then unchanged |
| OrganizerHelpers.PayloadOfValidForm | src/lib/organizer-helpers.ts:141-153 | the payload built from a valid form passes the same checks |
| LoadManagement.CircuitBreaker.constructor | src/lib/load-management.ts:18-24 | a new breaker is closed with zero count, failure time and response time, and is consistent |
| LoadManagement.CircuitBreaker.Execute | src/lib/load-management.ts:26-76 | `execute(fn, fallback)` with the clock readings and `fn`'s outcome as parameters: whether `fn` ran, the reply and the new fields are those of the breaker transition, and a consistent breaker stays consistent |
| LoadManagement.CircuitBreaker.GetState | src/lib/load-management.ts:78-84 | the report of a consistent breaker has a non-negative count, at least the configured one whenever the breaker is not closed |
| LoadManagement.CircuitBreaker.Reset | src/lib/load-management.ts:86-89 | closed with a zero count; the time of the last failure and the last response time are kept |
| LoadManagement.AfterExecute | src/lib/load-management.ts:26-76 | definition of one `execute` call as a step of the breaker's state; no contract of its own: CircuitBreaker.Execute is proved against it, and ExecuteKeepsConsistent through NeverLeftHalfOpen state its cases |
| LoadManagement.ExecuteKeepsConsistent | src/lib/load-management.ts:26-76 | every call keeps the breaker consistent: a non-negative count, and not closed only after at least the configured number of failures |
| LoadManagement.CoolingDownSkipsCall | src/lib/load-management.ts:30-38 | `fn` runs exactly when the breaker is not open within the reset time; otherwise nothing changes and the fallback answers, or the call is rejected with `Circuit breaker OPEN` |
| LoadManagement.FastResponseCloses | src/lib/load-management.ts:54-57 | a response within the threshold closes the breaker, clears the count, records the response time and returns the value |
| LoadManagement.SlowResponseCounts | src/lib/load-management.ts:45-53 | a slow response adds one failure, opens the breaker exactly when the count reaches the limit (then recording the time), and its value is still returned |
| LoadManagement.ErrorCounts | src/lib/load-management.ts:60-75 | a rejected call adds one failure and records its time, opens the breaker at the limit, and is answered by the fallback exactly when there is one and the breaker is open; otherwise the error is passed on |
| LoadManagement.TrialFailureReopens | src/lib/load-management.ts:31-32 | the half-open trial does not clear the count, so one slow or failed trial opens the breaker again at once |
| LoadManagement.NeverLeftHalfOpen | src/lib/load-management.ts:26-76 | a consistent breaker never ends a call half-open |
| LoadManagement.SmartCache.constructor | src/lib/load-management.ts:121-123 | a new cache is empty |
| LoadManagement.SmartCache.Set | src/lib/load-management.ts:125-131 | the key now maps to the data, the current time and `ttlSeconds * 1000`; other keys are unchanged |
| LoadManagement.SmartCache.Get | src/lib/load-management.ts:133-147 | the returned data, stale flag and remaining entries are those of the lookup at the given time |
| LoadManagement.SmartCache.Clear | src/lib/load-management.ts:149-155 | a truthy key is deleted; no key or the empty key clears everything |
| LoadManagement.StaleInWholeNumbers | src/lib/load-management.ts:123 | the 80% rule on whole milliseconds: stale exactly when five times the age exceeds four times the lifetime |
| LoadManagement.LookupCases | src/lib/load-management.ts:133-147 | a missing key gives no data and no change; an expired one gives no data and is deleted; otherwise the data comes back, nothing is removed, and it is stale exactly past 80% of its lifetime |
| LoadManagement.SetThenGet | src/lib/load-management.ts:125-147 | a value stored for `ttlSeconds` is returned for that many seconds and is fresh for the first four fifths of them |
| LoadManagement.LookupKeepsOthers | src/lib/load-management.ts:141-143 | a `get` of one key neither drops nor changes any other entry |
| LoadManagement.ClearSizes | src/lib/load-management.ts:149-159 | clearing a present non-empty key shrinks the size by one, an absent one changes nothing, and no key or the empty key leaves size zero |
| LoadManagement.Directives | src/lib/load-management.ts:277-283 | the directives after `.filter(Boolean)` are `public` and `max-age=<maxAge>`, then `s-maxage=<sMaxAge>` exactly when sMaxAge is present and non-zero, and `stale-while-revalidate` last exactly when asked for |
| LoadManagement.NumberedBare | src/lib/load-management.ts:279-280 | a name, `=` and a number form a directive with no comma and no white space at its ends |
| LoadManagement.ReadJoined | src/lib/load-management.ts:284 | joining such directives with `", "`, splitting at commas and trimming gives them back |
| LoadManagement.CacheControlReadsBack | src/lib/load-management.ts:276-284 | reading the `Cache-Control` header back gives exactly the directives that were written, in order |
| LoadManagement.ZeroSharedAgeDropped | src/lib/load-management.ts:280 | a zero `s-maxage` is dropped as if it were absent |
| LoadManagement.RevalidateIsBare | src/lib/load-management.ts:281 | `stale-while-revalidate` is written last and bare, with no delta-seconds |
| CertificateHelpers.NextSeparator | src/lib/certificate-helpers.ts:79 | the first comma or newline at or after `i`, or the end: nothing before it is a separator |
| CertificateHelpers.SplitNames | src/lib/certificate-helpers.ts:79 | `split(/[\n,]/)` gives at least one piece and no piece holds a separator |
| CertificateHelpers.TrimAll | src/lib/certificate-helpers.ts:80 | each piece trimmed, same count and order |
| CertificateHelpers.TrimNoSeparator | src/lib/certificate-helpers.ts:80 | trimming adds no separator |
| CertificateHelpers.KeepNonEmptyClean | src/lib/certificate-helpers.ts:81 | trimmed pieces that kept something are clean: non-empty, trimmed and free of separators |
| CertificateHelpers.DropIdle | src/lib/certificate-helpers.ts:82 | the separator-only filter drops nothing from clean names |
| CertificateHelpers.TrimmedPiecesClean | src/lib/certificate-helpers.ts:78-81 | before the last filter every name is already clean |
| CertificateHelpers.ParseStudentNames | src/lib/certificate-helpers.ts:77-83 | every parsed name is non-empty, trimmed and free of `,` and `\n`; ParsedNamesClean, ParseJoinedNames and ParseBlank state the rest |
| CertificateHelpers.ParsedNamesClean | src/lib/certificate-helpers.ts:77-83 | every parsed name is non-empty, trimmed and free of `,` and `\n`, and the separator-only filter never removes anything |
| CertificateHelpers.SplitNamesJoin | src/lib/certificate-helpers.ts:79 | splitting at separators undoes joining with a separator followed by padding, up to that padding |
| CertificateHelpers.TrimPadded | src/lib/certificate-helpers.ts:80 | trimming the space-padded pieces gives the clean names back |
| CertificateHelpers.TrimSplitJoined | src/lib/certificate-helpers.ts:79-80 | splitting a `", "`-separated list of clean names and trimming gives the names back |
| CertificateHelpers.ParseJoinedNames | src/lib/certificate-helpers.ts:77-83 | clean names written as a comma-separated list parse back to the same names in the same order |
| CertificateHelpers.ParseBlank | src/lib/certificate-helpers.ts:77-83 | blank input without separators gives no names |
| CertificateHelpers.ValidateStudentName | src/lib/certificate-helpers.ts:88-103 | accepted exactly when not blank, at most 100 characters and free of `< > { } [ ] \`; otherwise the first failing check in that order gives the message, each as an if-and-only-if |
| CertificateHelpers.ParsedNamesNotEmpty | src/lib/certificate-helpers.ts:77-103 | no name the parser returns is refused as empty |
| CertificateHelpers.Sanitize | src/lib/certificate-helpers.ts:136 | `replace(/[^a-zA-Z0-9]/g, "_")`: same length, letters and digits kept in place, every other character `_` |
| CertificateHelpers.SanitizeIdempotent | src/lib/certificate-helpers.ts:136 | sanitising twice is sanitising once |
| CertificateHelpers.CertificateFilename | src/lib/certificate-helpers.ts:135-137 | sixteen characters longer than the name, ending in `_Certificate.pdf`, with letters and digits kept and everything else `_` |
| CertificateHelpers.FilenameSafe | src/lib/certificate-helpers.ts:135-137 | every character of a certificate file name is a letter, a digit, `_` or `.` |
| CertificateHelpers.StoragePathSegments | src/lib/certificate-helpers.ts:293-295 | for an event id and file name without `/`, the path splits into exactly `certificates`, the event and the file |
| CertificateHelpers.EstimateGenerationTime | src/lib/certificate-helpers.ts:142-152 | definition of `estimateGenerationTime` on real numbers, 1.5 seconds per certificate; no contract of its own: EstimateInWholeNumbers states the text it gives |
| CertificateHelpers.EstimateInWholeNumbers | src/lib/certificate-helpers.ts:142-152 | under 40 certificates the estimate is `~⌈3n/2⌉ seconds`; from 40 on it is `~⌈n/40⌉ minute`, plural exactly when over 40 |
| CertificateHelpers.IsHexColor | src/lib/certificate-helpers.ts:223-225 | definition of `/^#[0-9A-F]{6}$/i`: a `#` and six hex digits of either case; no contract of its own: HexColorIgnoresCase and PdfUtils.RgbToHex state its properties |
| CertificateHelpers.HexColorIgnoresCase | src/lib/certificate-helpers.ts:223-225 | `validateHexColor` is case-insensitive: upper- or lower-casing never changes the verdict |
| CertificateHelpers.BatchArray | src/lib/certificate-helpers.ts:261-267 | the loop pushes `array.slice(i, i + batchSize)` for each step of `batchSize`; the result is the batch list of the input |
| CertificateHelpers.RestStep | src/lib/certificate-helpers.ts:263-264 | one turn of the loop: the slice at `i`, then the batches of what is left after it |
| CertificateHelpers.BatchesFlatten | src/lib/certificate-helpers.ts:261-267 | the batches concatenate back to the input |
| CertificateHelpers.BatchesCount | src/lib/certificate-helpers.ts:261-267 | there are ⌈n / batchSize⌉ batches: enough to hold the input, and one fewer would not be |
| CertificateHelpers.BatchesSizes | src/lib/certificate-helpers.ts:261-267 | every batch but the last has exactly `batchSize` elements; the last is non-empty and at most that long |
| CertificateHelpers.RecommendedFontForEventType | src/lib/certificate-helpers.ts:204-218 | a lower-cased type in the table gives its font; "constructor" and "__proto__" give the member the object literal inherits, which is not a font; a missing or other type gives Playfair Display; every font it gives is one of the table's |
| CertificateHelpers.FontIgnoresCase | src/lib/certificate-helpers.ts:217 | the lookup lower-cases the type, so letter case never changes the font |
| CertificateHelpers.ProtoIsInherited | src/lib/certificate-helpers.ts:217 | the type "__proto__" finds the inherited `Object.prototype` instead of a font |
| PdfUtils.ValidateCertificateConfig | src/lib/pdf-utils.ts:161-196 | the errors are exactly the messages of the failing checks in source order, and `valid` holds exactly when there are none |
| PdfUtils.Report | src/lib/pdf-utils.ts:164-190 | one `if (failed) errors.push(message)`: after the checks before it, it extends their messages with its own exactly when it fails |
| PdfUtils.Index | src/lib/pdf-utils.ts:164-190 | each check has a position below seven in the source order |
| PdfUtils.FailedUpToEmpty | src/lib/pdf-utils.ts:192-193 | no message from the first `n` checks exactly when none of them fails |
| PdfUtils.NoneFailsIffAllPass | src/lib/pdf-utils.ts:164-190 | no check fails exactly when every check passes |
| PdfUtils.AllPassIffOk | src/lib/pdf-utils.ts:164-190 | passing every check is having a base URL, a non-blank student name, a font, a size from 12 to 200, a six-digit hex colour, a known alignment and both positions |
| PdfUtils.ConfigValidIff | src/lib/pdf-utils.ts:161-196 | the configuration is valid exactly when it meets all seven requirements |
| PdfUtils.MessagesDistinct | src/lib/pdf-utils.ts:165-189 | each check has its own message |
| PdfUtils.ReportedIffFails | src/lib/pdf-utils.ts:164-190 | a check's message is among those of the first `n` checks exactly when that check is one of them and fails |
| PdfUtils.MessageIffFails | src/lib/pdf-utils.ts:161-196 | the validator reports each rule's message exactly when that rule fails |
| PdfUtils.HexValue | src/lib/pdf-utils.ts:46-48 | one hex digit's value is below 16 |
| PdfUtils.PairValue | src/lib/pdf-utils.ts:46-48 | `parseInt(pair, 16)` of two hex digits is below 256 |
| PdfUtils.HexDigit | src/lib/pdf-utils.ts:46-48 | the digit written for a value below 16 is a hex digit that parses back to that value |
| PdfUtils.ChannelHex | src/lib/pdf-utils.ts:46-48 | two hex digits written for a byte parse back to that byte |
| PdfUtils.RgbToHex | src/lib/pdf-utils.ts:180 | the `#rrggbb` text written for a colour passes the configuration's colour check |
| PdfUtils.HexToRgb | src/lib/pdf-utils.ts:40-49 | each parsed channel is a byte, whatever the text; HexRoundTrip, ValidColourParses and MalformedIsBlack state the value |
| PdfUtils.HexRoundTrip | src/lib/pdf-utils.ts:40-49 | parsing a written colour gives the colour back |
| PdfUtils.ValidColourParses | src/lib/pdf-utils.ts:40-49 | every colour the configuration check accepts parses to its three hex byte pairs, and comes out black only when all six digits are zero |
| PdfUtils.MalformedIsBlack | src/lib/pdf-utils.ts:41-44 | text that is not six hex digits, with or without a leading `#`, parses to black |
| CertificateGenerate.EscapeXml | src/app/api/organizer/certificate-template/generate/route.ts:77-94 | definition of `escapeXml`, character by character; no contract of its own: EscapeLength, EscapeClean, EscapePlain, EscapeRoundTrip and EscapeInjective state its properties |
| CertificateGenerate.EscapeChar | src/app/api/organizer/certificate-template/generate/route.ts:77-94 | a markup character becomes an entity starting with `&`; any other character is kept |
| CertificateGenerate.EscapeLength | src/app/api/organizer/certificate-template/generate/route.ts:77-94 | the escaped text grows by three characters per `<` and `>`, four per `&` and five per quote |
| CertificateGenerate.EscapeCharClean | src/app/api/organizer/certificate-template/generate/route.ts:77-94 | the escape of a character holds no `<`, `>` or quote |
| CertificateGenerate.EscapeClean | src/app/api/organizer/certificate-template/generate/route.ts:77-94 | the escaped name never holds a raw `<`, `>` or quote, so it cannot close the SVG text element |
| CertificateGenerate.EscapePlain | src/app/api/organizer/certificate-template/generate/route.ts:77-94 | text without markup characters is returned as it is |
| CertificateGenerate.UnescapeChar | src/app/api/organizer/certificate-template/generate/route.ts:77-94 | reading back one escaped character gives that character |
| CertificateGenerate.EscapeRoundTrip | src/app/api/organizer/certificate-template/generate/route.ts:77-94 | unescaping undoes escaping |
| CertificateGenerate.EscapeInjective | src/app/api/organizer/certificate-template/generate/route.ts:77-94 | distinct names stay distinct once escaped |
| CertificateGenerate.TextAnchor | src/app/api/organizer/certificate-template/generate/route.ts:39-40 | `start` exactly for left, `end` exactly for right, `middle` otherwise |
| AnalyticsQueue.IdOrAnonymous | src/lib/analytics-queue.ts:135 | a present, non-empty event id is used as it is; a missing or empty one becomes "anonymous"; the result is never empty |
| AnalyticsQueue.AnalyticsQueue.constructor | src/lib/analytics-queue.ts:44-60 | the module-level queue starts empty |
| AnalyticsQueue.AnalyticsQueue.Track | src/lib/analytics-queue.ts:44-60 | offline, the event is appended at the end; online, it is appended exactly when the send rejects; nothing else changes |
| AnalyticsQueue.AnalyticsQueue.Deduplicate | src/lib/analytics-queue.ts:131-144 | the filter with its `seen` set returns the deduplicated queue: the first event of each key, in order |
| AnalyticsQueue.AnalyticsQueue.Flush | src/lib/analytics-queue.ts:104-126 | an empty queue stays empty; otherwise the queue becomes exactly the deduplicated events whose send failed, in order |
| AnalyticsQueue.AnalyticsQueue.Clear | src/lib/analytics-queue.ts:181-182 | the queue is empty afterwards |
| AnalyticsQueue.AnalyticsQueue.Length | src/lib/analytics-queue.ts:174-176 | the length is zero exactly when the queue is empty |
| AnalyticsQueue.Dedup | src/lib/analytics-queue.ts:131-144 | definition of `deduplicateQueue`: an event is kept when no earlier kept event has its key; no contract of its own: DedupKeys, DedupDistinct, DedupSubsequence and DedupIdempotent state its properties |
| AnalyticsQueue.KeysSnoc | src/lib/analytics-queue.ts:133-143 | adding one event adds its key to the keys of the queue |
| AnalyticsQueue.DistinctInit | src/lib/analytics-queue.ts:133-143 | dropping the last event of a queue without repeated keys leaves distinct keys that exclude the dropped key |
| AnalyticsQueue.DedupSnoc | src/lib/analytics-queue.ts:138-142 | deduplicating one more event keeps it exactly when its key was not seen before |
| AnalyticsQueue.DedupStep | src/lib/analytics-queue.ts:138-142 | one more event considered by the filter, and the `seen` set grows by its key |
| AnalyticsQueue.DedupKeys | src/lib/analytics-queue.ts:131-144 | deduplicating loses no key and adds none |
| AnalyticsQueue.DistinctSnoc | src/lib/analytics-queue.ts:141-142 | appending an event whose key is new keeps the keys distinct |
| AnalyticsQueue.DedupDistinct | src/lib/analytics-queue.ts:131-144 | no two deduplicated events share a key |
| AnalyticsQueue.DedupSubsequence | src/lib/analytics-queue.ts:131-144 | the deduplicated events are a subsequence of the queue, in their order |
| AnalyticsQueue.DistinctUnchanged | src/lib/analytics-queue.ts:131-144 | a queue without repeated keys is left as it is |
| AnalyticsQueue.DedupIdempotent | src/lib/analytics-queue.ts:131-144 | deduplicating twice is deduplicating once |
| AnalyticsQueue.FilterKeys | src/lib/analytics-queue.ts:114-121 | keeping the failed sends brings no new key and keeps distinct keys distinct |
| AnalyticsQueue.FlushLeavesDistinct | src/lib/analytics-queue.ts:104-126 | after a flush the queue holds no two events with the same key |
| AnalyticsQueue.AllSentEmpties | src/lib/analytics-queue.ts:104-126 | when every send goes through, a flush empties the queue |
| AnalyticsQueue.SecondFlushStable | src/lib/analytics-queue.ts:104-126 | when every send fails, a flush only drops duplicates, and a second flush changes nothing |
| AnalyticsQueue.Key | src/lib/analytics-queue.ts:135-137 | definition of the duplicate key; no contract of its own: AnonymousKeysAgree, UnderscoreCollision and SameSecondSameKey state when two keys agree |
| AnalyticsQueue.AnonymousKeysAgree | src/lib/analytics-queue.ts:135 | a missing id, an empty id and the id `anonymous` give the same key |
| AnalyticsQueue.UnderscoreCollision | src/lib/analytics-queue.ts:135-137 | keys are glued with `_`, so id `a_b` with type `c` and id `a` with type `b_c` collide |
| AnalyticsQueue.SameSecondSameKey | src/lib/analytics-queue.ts:135-137 | for the same id and type, two events share a key exactly when their timestamps fall in the same second |
| Offline.Pow | src/lib/offline.ts:96 | a power of a base of at least one is at least one |
| Offline.Delay | src/lib/offline.ts:95-98 | the wait after a failure is `min(initial * multiplier^(attempt - 1), max)`, so between 1200 and 5000 ms |
| Offline.Schedule | src/lib/offline.ts:95-101 | the waits after failures 1 to `n`: one per failure |
| Offline.FirstSuccess | src/lib/offline.ts:84-88 | the first of the first `n` attempts that succeeds, after failures only, or `n` when none does |
| Offline.RetryWithBackoff | src/lib/offline.ts:78-106 | the result, the number of calls and the recorded waits are those of the retry run |
| Offline.Retry | src/lib/offline.ts:78-106 | definition of what `retryWithBackoff` returns, how many calls it makes and which waits it takes; no contract of its own: RetryWithBackoff is proved against it, and RetryCalls through ExhaustedOnlyWithoutAttempts state its cases |
| Offline.RetryCalls | src/lib/offline.ts:84 | `fn` is called at most `maxAttempts` times, and at least once when that is positive |
| Offline.RetryReturnsFirstSuccess | src/lib/offline.ts:84-88 | the first success is returned, after exactly as many calls and with one wait per earlier failure |
| Offline.RetryRethrowsLast | src/lib/offline.ts:90-93 | when every allowed attempt fails, the last error is rethrown after `maxAttempts` calls |
| Offline.ExhaustedOnlyWithoutAttempts | src/lib/offline.ts:105 | with at least one attempt allowed every outcome comes from `fn`; the `exhausted all retry attempts` error is thrown only when `maxAttempts` is below 1 |
| Offline.DelaysGrow | src/lib/offline.ts:95-98 | waits grow with the attempt number and never exceed `backoff.max` |
| Offline.ConfiguredSchedule | src/lib/motion.config.ts:185-192 | with the configured three attempts, the waits are 1200 ms and then 2160 ms |
| Offline.ActionStore.constructor | src/lib/offline.ts:108-117 | the object store starts empty and keyed by id |
| Offline.ActionStore.AddToQueue | src/lib/offline.ts:119-132 | the new action gets id `<idTime>_<suffix>`, creation time `createdAt` (the source reads the clock twice, so the two may differ) and no retries; an id already stored makes `db.add` fail and the store is unchanged; the store stays keyed by id |
| Offline.ActionStore.RemoveFromQueue | src/lib/offline.ts:134-141 | the action with that id is gone and nothing else changes |
| Offline.ActionStore.ClearQueue | src/lib/offline.ts:143-150 | the store is empty afterwards, and so keyed by id |
| Offline.ActionStore.ProcessQueue | src/lib/offline.ts:153-184 | for whatever listing it is given (including the empty one `getActionQueue` falls back to), the loop leaves the store as the listed actions processed in order, and a store keyed by id stays keyed by id |
| Offline.StepOthers | src/lib/offline.ts:163-183 | handling an action touches its own entry only |
| Offline.StepOwn | src/lib/offline.ts:163-183 | handling an action leaves its fate in its entry: unchanged without a handler, removed after a success or its last allowed failure, else one more retry |
| Offline.ProcessedEntries | src/lib/offline.ts:163-183 | after the listed actions were handled, each listed action's entry is its fate and every other entry is as it was |
| Offline.ProcessQueueOutcome | src/lib/offline.ts:153-184 | every stored action ends up as its fate says; an action with no handler is left untouched |
| Offline.ListedOnce | src/lib/offline.ts:109-117 | every stored id appears in the listing |
| Offline.IdsCount | src/lib/offline.ts:109-117 | a listing with distinct ids has as many ids as entries |
| Offline.ProcessedAddsNothing | src/lib/offline.ts:153-184 | `processQueue` adds no action to the store |
| Offline.LastRegistrationIntent | src/lib/offline.ts:206-219 | definition of the search for a queued registration; no contract of its own: RegistrationIntentFound states what it finds |
| Offline.RegistrationIntentFound | src/lib/offline.ts:206-219 | the intent is found exactly when a registration is listed, and it is the payload of the first listed registration |
| Colleges.AllStates | src/lib/colleges.ts:215-217 | definition of `getAllStates` as insertion into a sorted list without repeats; no contract of its own: AllStatesSorted and StatesDistinct state its result |
| Colleges.InsertSorted | src/lib/colleges.ts:216 | inserting into a strictly sorted list keeps it strictly sorted and adds exactly the new state |
| Colleges.SortedCons | src/lib/colleges.ts:216 | an element before all the others keeps a sorted list sorted |
| Colleges.AllStatesSorted | src/lib/colleges.ts:215-217 | the states come strictly sorted, each once, and are exactly the states of the colleges |
| Colleges.StatesDistinct | src/lib/colleges.ts:215-217 | no state is listed twice |
| Colleges.Matching | src/lib/colleges.ts:228-232 | a college is in the result exactly when it is in the list and its name, location or state contains the query |
| Colleges.LowerBlank | src/lib/colleges.ts:223-227 | lower-casing keeps a query blank or not blank |
| Colleges.NormalizeEmpty | src/lib/colleges.ts:227 | the search text is empty exactly when the query is blank |
| Colleges.SearchColleges | src/lib/colleges.ts:222-233 | definition of `searchColleges`; no contract of its own: SearchResult, Matching, SearchIgnoresCase and SearchMonotone state its result |
| Colleges.SearchResult | src/lib/colleges.ts:222-233 | a blank query lists every college; any other lists the matching ones |
| Colleges.MatchingInOrder | src/lib/colleges.ts:228 | the matching colleges keep their list order |
| Colleges.SearchIgnoresCase | src/lib/colleges.ts:227-231 | queries equal up to letter case give the same result |
| Colleges.MatchesPart | src/lib/colleges.ts:229-231 | a college that matches a text matches every part of it |
| Colleges.SearchMonotone | src/lib/colleges.ts:222-233 | a narrower query finds no more: when the first search text occurs in the second, every college the second finds the first finds too |
| CertificateFonts.FormalSection | src/lib/certificate-fonts.ts:24-169 | the formal section holds only formal fonts, and its two recommended fonts come first |
| CertificateFonts.ModernSection | src/lib/certificate-fonts.ts:170-351 | the modern section holds only modern fonts, and its three recommended fonts come first |
| CertificateFonts.DisplaySection | src/lib/certificate-fonts.ts:352-496 | the display section holds only display fonts, and its one recommended font comes first |
| CertificateFonts.ScriptSection | src/lib/certificate-fonts.ts:497-606 | the script section holds only script fonts, and its one recommended font comes first |
| CertificateFonts.MinimalSection | src/lib/certificate-fonts.ts:607-749 | the minimal section holds only minimal fonts, none of them recommended |
| CertificateFonts.SectionFilter | src/lib/certificate-fonts.ts:755-757 | filtering a one-category list by a category keeps all of it when the categories agree and nothing otherwise |
| CertificateFonts.FilterSections | src/lib/certificate-fonts.ts:755-757 | five lists of the five categories, concatenated in catalog order and filtered by a category, give back exactly the list of that category |
| CertificateFonts.FontsByCategory | src/lib/certificate-fonts.ts:755-757 | definition of `getFontsByCategory` as a filter of the catalog; no contract of its own: FontsByCategorySection states its result |
| CertificateFonts.FontsByCategorySection | src/lib/certificate-fonts.ts:755-757 | getFontsByCategory returns exactly the catalog section of that category, in catalog order |
| CertificateFonts.CatalogSize | src/lib/certificate-fonts.ts:23-750 | the catalog holds 100 fonts: 20 formal, 25 modern, 20 display, 15 script and 20 minimal |
| CertificateFonts.CategoriesPartition | src/lib/certificate-fonts.ts:755-757 | for any font list, the category filter keeps a font iff it is in the list with that category, keeps list order, and the five filtered lengths add up to the list length |
| CertificateFonts.RecommendedFonts | src/lib/certificate-fonts.ts:762-764 | definition of `getRecommendedFonts` as a filter of the catalog; no contract of its own: RecommendedSections and RecommendedSeven state its result |
| CertificateFonts.RecommendedSections | src/lib/certificate-fonts.ts:762-764 | getRecommendedFonts returns the recommended head of each section, section by section |
| CertificateFonts.RecommendedSeven | src/lib/certificate-fonts.ts:762-764 | getRecommendedFonts returns the seven recommended fonts (Playfair Display through Great Vibes) in catalog order |
| CertificateFonts.FontByValue | src/lib/certificate-fonts.ts:769-771 | definition of `getFontByValue` as a search of the catalog; no contract of its own: FontByValueMatches and FontByValueFirst state its result |
| CertificateFonts.FontByValueMatches | src/lib/certificate-fonts.ts:769-771 | getFontByValue returns a catalog entry with the asked value, and returns nothing iff no entry has that value |
| CertificateFonts.FontByValueFirst | src/lib/certificate-fonts.ts:769-771 | getFontByValue returns the first catalog entry whose value matches |
| CertificateFonts.SectionEntryFound | src/lib/certificate-fonts.ts:769-771 | every family listed in a section is found by getFontByValue |
| CertificateFonts.TableStep | src/lib/certificate-fonts.ts:807-818 | adding an entry naming a catalogued font to a table whose fonts are all catalogued keeps it so |
| CertificateFonts.PlayfairDisplayCatalogued | src/lib/certificate-fonts.ts:27-34 | Playfair Display is found by getFontByValue |
| CertificateFonts.LibreBaskervilleCatalogued | src/lib/certificate-fonts.ts:35-42 | Libre Baskerville is found by getFontByValue |
| CertificateFonts.CrimsonTextCatalogued | src/lib/certificate-fonts.ts:43-50 | Crimson Text is found by getFontByValue |
| CertificateFonts.LoraCatalogued | src/lib/certificate-fonts.ts:85-92 | Lora is found by getFontByValue |
| CertificateFonts.InterCatalogued | src/lib/certificate-fonts.ts:173-180 | Inter is found by getFontByValue |
| CertificateFonts.PoppinsCatalogued | src/lib/certificate-fonts.ts:181-188 | Poppins is found by getFontByValue |
| CertificateFonts.MontserratCatalogued | src/lib/certificate-fonts.ts:189-196 | Montserrat is found by getFontByValue |
| CertificateFonts.BebasNeueCatalogued | src/lib/certificate-fonts.ts:355-362 | Bebas Neue is found by getFontByValue |
| CertificateFonts.SpaceGroteskCatalogued | src/lib/certificate-fonts.ts:617-624 | Space Grotesk is found by getFontByValue |
| CertificateFonts.EventTypeFontsCatalogued | src/lib/certificate-fonts.ts:807-818 | every font RECOMMENDED_FONTS_BY_EVENT_TYPE names is in the catalog |
| CertificateFonts.HelperFontsCatalogued | src/lib/certificate-helpers.ts:204-217 | every font name getRecommendedFontForEventType can return, its default included, is in the certificate font catalog; the inherited members it returns for "constructor" and "__proto__" are not font names |
| CertificateFonts.EveryCategoryDescribed | src/lib/certificate-fonts.ts:776-802 | FONT_CATEGORIES describes every category, no two categories share a label, and every category has fonts to show |
| Fonts.FontsByCategory | src/lib/fonts.ts:173-175 | definition of `getFontsByCategory` as a filter of the catalog; no contract of its own: FontsByCategoryExact states its result |
| Fonts.FontsByCategoryExact | src/lib/fonts.ts:173-175 | getFontsByCategory keeps a font iff it is in the catalog with that category, in catalog order |
| Fonts.EveryCategoryHasFonts | src/lib/fonts.ts:14-171 | every category has at least one font |
| Fonts.CategoryIsListed | src/lib/fonts.ts:182-188 | FONT_CATEGORIES lists every category id, each exactly once |
| Fonts.ListedIdHasFonts | src/lib/fonts.ts:182-188 | every id FONT_CATEGORIES lists is a category with at least one font |
| Fonts.SerifApart | src/lib/fonts.ts:14-171 | no serif font value reappears in a later section |
| Fonts.SectionsApart | src/lib/fonts.ts:14-171 | no font value of the sans-serif, monospace or cursive sections reappears in a later section |
| Fonts.ValuesUnique | src/lib/fonts.ts:14-171 | no two catalog entries share a value |
| Fonts.FallbacksPresent | src/lib/fonts.ts:14-171 | every catalog entry has a non-empty fallback stack |
| Fonts.FontFallback | src/lib/fonts.ts:177-180 | definition of `getFontFallback`; no contract of its own: FallbackOfListed and FallbackOfUnknown state its result |
| Fonts.FallbackOfListed | src/lib/fonts.ts:177-180 | getFontFallback of a catalogued font's value is that font's own fallback stack |
| Fonts.FallbackOfUnknown | src/lib/fonts.ts:177-180 | getFontFallback of a name no entry has is the Arial default |
| EventSchedule.EarliestIsFirst | src/hooks/useEventSchedule.ts:41-42 | the first of the sorted dates is a session's date, and no session's date sorts before it |
| EventSchedule.LatestIsLast | src/hooks/useEventSchedule.ts:41-43 | the last of the sorted dates is a session's date, and it sorts before no session's date |
| EventSchedule.FirstOn | src/hooks/useEventSchedule.ts:44-45 | find with a date some session has returns a session of the list on that date |
| EventSchedule.FirstOnIsFirst | src/hooks/useEventSchedule.ts:44-45 | find returns the first session on the date |
| EventSchedule.EarliestDateUnique | src/hooks/useEventSchedule.ts:41-42 | a session date that no session's date sorts before is the first sorted date |
| EventSchedule.LatestDateUnique | src/hooks/useEventSchedule.ts:41-43 | a session date that sorts before no session's date is the last sorted date |
| EventSchedule.FirstIndexOn | src/hooks/useEventSchedule.ts:44-45 | for a date some session has, gives the position of the first session on it |
| EventSchedule.StartOf | src/hooks/useEventSchedule.ts:40-47 | definition of the recomputed start; no contract of its own: StartOfSession states which session it comes from |
| EventSchedule.StartOfSession | src/hooks/useEventSchedule.ts:40-47 | the recomputed start is the date and start time of the first session on the earliest date |
| EventSchedule.EndOf | src/hooks/useEventSchedule.ts:40-48 | definition of the recomputed end; no contract of its own: EndOfSession and EndTakesFirstSessionOfDay state which session it comes from |
| EventSchedule.EndOfSession | src/hooks/useEventSchedule.ts:40-48 | the recomputed end is the date and end time of the first session on the latest date |
| EventSchedule.EndTakesFirstSessionOfDay | src/hooks/useEventSchedule.ts:45-48 | of two sessions on one day the end takes the first one's end time, whatever the second's is |
| EventSchedule.AddEarlierSessionStarts | src/hooks/useEventSchedule.ts:35-48 | adding a session dated before every other makes its date and start time the event start |
| EventSchedule.AddLaterSessionKeepsStart | src/hooks/useEventSchedule.ts:35-48 | adding a session dated on or after the first date leaves the event start unchanged |
| EventSchedule.Assigned | src/hooks/useEventSchedule.ts:54-55 | definition of the assignment `newSessions[index] = session`; no contract of its own: AssignedKeepsOthers states its cases |
| EventSchedule.AssignedKeepsOthers | src/hooks/useEventSchedule.ts:54-55 | assigning at a position replaces only that session; at the end of the list it appends; below zero it changes nothing |
| EventSchedule.RemoveAt | src/hooks/useEventSchedule.ts:73 | definition of `filter((_, i) => i !== index)`; no contract of its own: RemoveAtKeepsOthers states its cases |
| EventSchedule.RemoveAtKeepsOthers | src/hooks/useEventSchedule.ts:73 | filtering out an index in range drops exactly that session and keeps the rest in order; any other index removes nothing |
| EventSchedule.IsoDatesSortByDay | src/hooks/useEventSchedule.ts:41 | on zero-padded YYYY-MM-DD dates the string sort agrees with the calendar order |
| EventSchedule.UnpaddedMonthsMisorder | src/hooks/useEventSchedule.ts:41 | without zero padding the string sort puts 1 October before 30 September |
| EventSchedule.ScheduleEditor.constructor | src/hooks/useEventSchedule.ts:20-23 | starts as a single-day event with empty start and end and no sessions |
| EventSchedule.ScheduleEditor.SetEventType | src/hooks/useEventSchedule.ts:20 | sets the event type and leaves the rest |
| EventSchedule.ScheduleEditor.SetSingleDayEvent | src/hooks/useEventSchedule.ts:26-32 | start and end are the one date with the two times, and the sessions are cleared |
| EventSchedule.ScheduleEditor.AddScheduleSession | src/hooks/useEventSchedule.ts:35-50 | appends the session and sets start and end from the first sessions on the earliest and latest dates |
| EventSchedule.ScheduleEditor.UpdateScheduleSession | src/hooks/useEventSchedule.ts:53-69 | assigns the session at the index and, when sessions are left, recomputes start and end; otherwise the old bounds stay |
| EventSchedule.ScheduleEditor.RemoveScheduleSession | src/hooks/useEventSchedule.ts:72-86 | drops the session at the index and recomputes start and end, or keeps the old bounds when no session is left |
| EventSchedule.ScheduleEditor.GetEventScheduleData | src/hooks/useEventSchedule.ts:89-93 | passes start and end through, and sends the sessions exactly for a multi-day event that has some |
| Proxy.Route | src/proxy.ts:5-50 | definition of the `proxy` function; no contract of its own: RouteByArea, NoTokenToAuth and RedirectLandsOutsideDenied state its result |
| Proxy.RouteByArea | src/proxy.ts:14-49 | with a token, the user passes exactly when the path is in no role's area or in their own; otherwise they are sent to their own dashboard, or to /auth when their role is none of the three |
| Proxy.NoTokenToAuth | src/proxy.ts:10-12 | without a token every path redirects to /auth |
| Proxy.RedirectLandsOutsideDenied | src/proxy.ts:17-47 | a redirect never targets the area that was denied, goes to /auth or the user's home, and a redirect home is let through on the next request |
| Proxy.HomeArea | src/proxy.ts:17-37 | each role's own dashboard path falls in that role's area |
| Proxy.OtherDashboardsPass | src/proxy.ts:17-49 | a dashboard page outside the three areas passes for any token |
| Proxy.PrefixNotSegment | src/proxy.ts:17 | the area test is a text prefix test: /dashboard/studentx is in the student area |
| Proxy.Authorized | src/proxy.ts:53-60 | definition of the `authorized` callback; no contract of its own: MiddlewareSignIn states what it decides |
| Proxy.Middleware | src/proxy.ts:4-69 | definition of the middleware: the matcher, then `authorized`, then `proxy`; no contract of its own: MiddlewareSignIn states its result |
| Proxy.MiddlewareSignIn | src/proxy.ts:53-69 | a matched path without a token goes to sign-in, a matched path with one goes through the route guard, and an unmatched path always passes |
| UploadImage.Status | src/app/api/upload-image/route.ts:25-142 | 401 exactly for no session, 403 exactly for a role other than organizer or admin, 500 exactly for a storage failure, 400 for every other rejection |
| UploadImage.Extension | src/app/api/upload-image/route.ts:69 | definition of `file.name.split('.').pop()?.toLowerCase()`; no contract of its own: LastPieceIsEnd and DotlessNameIsPiece state which piece it is |
| UploadImage.LastPieceIsEnd | src/app/api/upload-image/route.ts:69 | split('.').pop() is the longest dot-free end of the name: preceded by a dot or by nothing |
| UploadImage.DotlessNameIsPiece | src/app/api/upload-image/route.ts:69 | a name without a dot is its own extension |
| UploadImage.MagicIsPrefix | src/app/api/upload-image/route.ts:109-112 | the magic check passes exactly when the content starts with the expected bytes |
| UploadImage.MagicFits | src/app/api/upload-image/route.ts:111-112 | content that passes the magic check is at least as long as the magic number |
| UploadImage.KeepAlnum | src/app/api/upload-image/route.ts:90 | removing non-alphanumerics keeps exactly the ASCII letters and digits of the text, in order |
| UploadImage.EmailTag | src/app/api/upload-image/route.ts:87-90 | the e-mail tag is the ASCII letters and digits among the first eight characters of the base64 text, in order, so at most eight of them |
| UploadImage.FilePathShape | src/app/api/upload-image/route.ts:94-95 | the stored path starts with event-banners/ and ends with a dot and the extension |
| UploadImage.MagicForEveryExtensionType | src/app/api/upload-image/route.ts:70-107 | every type that has an extension entry has a magic number and is on the allow-list |
| UploadImage.Check | src/app/api/upload-image/route.ts:23-119 | definition of the request checks in source order; no contract of its own: CheckPassesIffAcceptable and FirstFailureDecides state its result |
| UploadImage.CheckPassesIffAcceptable | src/app/api/upload-image/route.ts:23-119 | the checks pass exactly for an acceptable request (session, role, file, type, size, extension, magic bytes), and then yield the lower-cased extension |
| UploadImage.FirstFailureDecides | src/app/api/upload-image/route.ts:25-50 | no session is reported before anything else, a wrong role before any file problem, a missing file before the file checks |
| UploadImage.JpgAlwaysRejected | src/app/api/upload-image/route.ts:11 | image/jpg passes the type check but has no extension entry, so every such upload fails the extension check |
| UploadImage.SizeBoundary | src/app/api/upload-image/route.ts:18 | a file of exactly 5 MiB passes the size check and one byte more fails it |
| UploadImage.DotlessPngAccepted | src/app/api/upload-image/route.ts:69-83 | a file named just png, declared PNG, with the PNG signature passes with extension png |
| UploadImage.WebpChecksRiffOnly | src/app/api/upload-image/route.ts:106 | any content starting with RIFF passes the WebP magic check |
| UploadImage.Post | src/app/api/upload-image/route.ts:20-163 | definition of the whole `POST` handler; no contract of its own: UploadedIsAcceptable states when and where it stores |
| UploadImage.UploadedIsAcceptable | src/app/api/upload-image/route.ts:85-155 | an upload is stored only for an acceptable request with a working storage, at the path built from timestamp, random text, e-mail tag and lower-cased extension |
| UploadRecipients.FirstOf | src/app/api/organizer/certificate-template/upload-recipients/route.ts:51-52 | the result is the text of the cell under the first given column whose cell is truthy, and empty exactly when no given column has a truthy cell |
| UploadRecipients.ValidEmail | src/app/api/organizer/certificate-template/upload-recipients/route.ts:48 | definition of the e-mail pattern position by position; no contract of its own: ValidEmailIffPattern states that it accepts exactly the pattern's strings |
| UploadRecipients.ValidEmailIffPattern | src/app/api/organizer/certificate-template/upload-recipients/route.ts:48 | the e-mail rule accepts exactly the texts of the form a@b.c with a, b, c non-empty and free of white space and @ |
| UploadRecipients.ValidIsPattern | src/app/api/organizer/certificate-template/upload-recipients/route.ts:48 | every e-mail the rule accepts splits as the pattern demands |
| UploadRecipients.PatternIsValid | src/app/api/organizer/certificate-template/upload-recipients/route.ts:48 | every text of the pattern's form is accepted by the rule |
| UploadRecipients.ValidEmailShape | src/app/api/organizer/certificate-template/upload-recipients/route.ts:48 | an accepted e-mail has exactly one @, not at the start, and no white space |
| UploadRecipients.ReadRecipients | src/app/api/organizer/certificate-template/upload-recipients/route.ts:47-60 | the loop builds the recipients of the rows, one per row, in row order |
| UploadRecipients.RecipientsOf | src/app/api/organizer/certificate-template/upload-recipients/route.ts:50-60 | one recipient per row |
| UploadRecipients.RecipientsOfEach | src/app/api/organizer/certificate-template/upload-recipients/route.ts:50-60 | the recipient at each position is the one made from the row at that position |
| UploadRecipients.RecipientOf | src/app/api/organizer/certificate-template/upload-recipients/route.ts:50-60 | definition of one row's recipient; no contract of its own: NamelessRowInvalid and ValidRecipientShape state its cases |
| UploadRecipients.NamelessRowInvalid | src/app/api/organizer/certificate-template/upload-recipients/route.ts:54-56 | a row without a name is recorded as Unknown and is never valid |
| UploadRecipients.ValidRecipientShape | src/app/api/organizer/certificate-template/upload-recipients/route.ts:51-54 | a valid recipient keeps the row's name, which is non-empty and trimmed, and its e-mail fits the pattern |
| UploadRecipients.EmailOf | src/app/api/organizer/certificate-template/upload-recipients/route.ts:52 | definition of the e-mail read from a row; no contract of its own: EmailLowerCase and FirstOf state what it holds |
| UploadRecipients.EmailLowerCase | src/app/api/organizer/certificate-template/upload-recipients/route.ts:52 | the stored e-mail is the trimmed cell's length and has no upper-case letter |
| UploadRecipients.NameOf | src/app/api/organizer/certificate-template/upload-recipients/route.ts:51 | definition of the name read from a row; no contract of its own: NameColumnOrder, FirstOf and Text.Trim state what it holds |
| UploadRecipients.NameColumnOrder | src/app/api/organizer/certificate-template/upload-recipients/route.ts:51 | a filled-in Name column wins over name and Student Name |
| UploadRecipients.Partition | src/app/api/organizer/certificate-template/upload-recipients/route.ts:63-64 | every recipient lands in exactly one of the valid and invalid lists, each list keeps the original order, and the two counts add up |
| UploadRecipients.ToStore | src/app/api/organizer/certificate-template/upload-recipients/route.ts:72-77 | one pending row per valid recipient, in order, with the template id, e-mail and name |
| UploadRecipients.Status | src/app/api/organizer/certificate-template/upload-recipients/route.ts:17-81 | 401 exactly for no session e-mail, 400 exactly for a missing file or template id, 403 exactly for a template not owned, 500 exactly for a failed insert |
| UploadRecipients.Upload | src/app/api/organizer/certificate-template/upload-recipients/route.ts:13-106 | each failure (401, 400, 403, 500) is answered exactly in its source case, in the source's order, and every other request succeeds; a success lists every row's recipient as valid or invalid in row order, stores the valid ones as pending, and its counts add up |
| Text.Trim | src/app/api/organizer/certificate-template/upload-recipients/route.ts:51 | trim drops leading and trailing JavaScript white space: the result is the text from the first non-space up to the last non-space, everything dropped before and after is white space, and it is empty exactly for blank text |
| Text.TrimFixed | src/lib/certificate-helpers.ts:80 | trimming text that neither starts nor ends with white space changes nothing |
| Text.TrimPadding | src/lib/razorpay-route.ts:186 | trim drops white space added at either end: trimming a padded text gives the trim of the text itself |
| Text.SplitOn | src/app/api/upload-image/route.ts:69 | split on one character gives at least one piece, and no piece holds the separator |
| Text.SplitJoin | src/lib/load-management.ts:284 | splitting a join with the separator and padding gives the parts back, with the padding in front of every part after the first |
| Text.IndexOfFrom | apply-motion.py:19 | the first position at or after the start that holds the character, or the end when none does |
| Text.FilterMember | src/lib/certificate-fonts.ts:755-757 | filter keeps an element exactly when it is in the list and the test holds |
| Text.FilterAppend | src/lib/certificate-fonts.ts:755-757 | filtering a concatenation filters each part |
| Text.FilterInOrder | src/lib/certificate-fonts.ts:755-757 | what filter keeps stays in list order |
| Text.FilterPrefix | src/lib/certificate-fonts.ts:762-764 | when the test holds for exactly the first n elements, filter gives that prefix |
| Text.FilterSplit | src/app/api/organizer/certificate-template/upload-recipients/route.ts:63-64 | a filter and its complement together have as many elements as the list |
| Text.FindFirst | src/lib/certificate-fonts.ts:769-771 | find returns the element at the first position the test picks |
| Text.FindNone | src/lib/certificate-fonts.ts:769-771 | find returns nothing exactly when no element is picked |
| Text.NatToString | src/app/api/upload-image/route.ts:94 | a number prints as at least one decimal digit, with no leading zero except for 0 itself |
| Text.NatToStringRoundTrip | src/app/api/upload-image/route.ts:94 | reading back the printed digits gives the number |
| Text.IntToStringInjective | src/lib/analytics-queue.ts:135-137 | distinct integers print differently |
| Text.PyDigitBelowArabic | apply-tokens.py:42 | the decimal-digit class used for Python's `\d` agrees with ASCII `0-9` on every character below U+0660, so it only widens the class for other scripts |

## Left out

- The file loops, file reads and writes and progress printing of `apply-tokens.py` and `apply-motion.py`. Only the text transformation is modelled.
- JavaScript strings are sequences of UTF-16 code units. Here a character is a Unicode scalar value, so lengths of text outside the Basic Multilingual Plane differ.
- `toLowerCase`, `toUpperCase` and the regular expressions' `i` flag are modelled for ASCII letters only. Other letters are left unchanged.
- PdfUtils.HexToRgb: returns the three integer byte values. The division by 255 into floating-point colour components is not modelled.
- Floating point elsewhere is left out: `getContrastColor`, `formatFileSize`, `calculateSuccessRate`, and the text-alignment offsets when a certificate is drawn.
- Clocks (`Date.now()`), `Math.random()`, Base64 encoding, storage and database answers, and the outcome of each `fn` or `sendEvent` call are parameters of the operations that use them.
- `PaymentQueue`, `AnalyticsBatcher`, `RequestDeduplicator`, the `breakers` and `caches` singletons, `getLoadStatus` and `withLoadManagement` are left out. They are timers, promises and shared instances around the modelled breaker and cache.
- LoadManagement.CircuitBreaker.Execute: `fn`'s outcome and its response time are inputs. The asynchronous call itself is not modelled.
- In the analytics queue, `localStorage` persistence (`initializeAnalyticsQueue`, `persistQueue`) is left out, and so are the `trackEventView`, `trackRegistrationIntent` and `trackPaymentInitiated` wrappers. Each wrapper only builds an event for `track`.
- AnalyticsQueue.AnalyticsQueue.Track: while online, the outcome of `sendEvent` is an input. In the source `sendEvent` swallows fetch errors, so in practice its promise does not reject.
- In `src/lib/offline.ts`, IndexedDB is modelled as a map from keys to actions plus the snapshot `getAll` returns. The store's key order, the failure of `db.add`, `saveRegistrationIntent`, `useOnlineStatus` and the retry sleeps are not modelled.
- The 181 colleges of `src/lib/colleges.ts` are not transcribed. Every operation takes the college list as a parameter.
- `googleFontsUrl` in the certificate font catalog is not modelled. The two event-type font tables, in `src/lib/certificate-fonts.ts` and in `src/lib/certificate-helpers.ts`, disagree on some types. Both are modelled as written.
- `getTotalDurationHours` is left out: it depends on date parsing and floating point.
- EventSchedule.ScheduleEditor.UpdateScheduleSession: requires the index to be at most the list length. A larger index leaves holes in the JavaScript array, and the `find` that follows would run over them. React's batching of the state setters is not modelled: each method updates the state at once.
- `getOrganizerTypeHelperText` and `getBankAccountHelperText` return fixed help texts and are not modelled.
- CertificateHelpers.BatchArray: requires a positive `batchSize` unless the array is empty. With a zero size and a non-empty array the source's loop never ends. Negative and fractional sizes are not modelled, because the size is a `nat`.
- The certificate helpers that are not pure string or number logic are left out: `validatePdfFile`, `estimatePdfDimensions`, `checkBrowserSupport`, `debounce`, `sleep` and `formatTimestamp`.
- In the image upload route, each error message is replaced by a rejection kind with its status code. The audit log line, the public URL lookup and the outer `catch` are not modelled.
- In the recipient upload route:
  - the spreadsheet parsing is left out, and the rows of the first sheet are an input;
  - the ownership query is a boolean input;
  - the delete of the old recipients and the audit RPC are not modelled;
  - numeric cells hold integers, where spreadsheet numbers are floating point;
  - a nameless row's `valid` flag is modelled as `false`, where the source's response shows the empty string.
- Proxy: the sign-in redirect that `withAuth` issues when `authorized` returns false is abstracted as the `SignIn` decision.
- Concurrency between requests, tabs or overlapping asynchronous calls is not modelled.
