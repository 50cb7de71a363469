# Dragon Token front-end: whitelist resolver, tab controller, recovery-phrase form, link button

This project models the logic of a small client-rendered token landing page
in Dafny and proves properties of it. It covers four pieces:

- **Whitelist resolver** (`Whitelist`, app/wsinthechat.js). A fixed table of
  seven tiers, each listing two wallet addresses, is scanned in ascending tier
  order. Every tier whose list holds the address is collected, by exact,
  case-sensitive equality. The answer is `"NOT WHITELISTED"` or
  `"LEVEL a, LEVEL b WHITELISTED"`. `InteractWithWLClick` is the source's loop.
  It is proved equal to the specification function `Resolve`.
- **Tab controller** (`TabsComponent.Tabs`, app/Tabs.tsx). It holds the active
  tab, the raw address text and the last lookup's result text. Each field is
  changed by its own handler. A lookup stores the resolver's answer for the
  current address.
- **Recovery-phrase form** (`RecoveryPhrase.RecoveryPhrasePage`,
  app/page.tsx). It holds the loader flag, the word count, one slot per word,
  the inline message and the phrase saved in memory. Its handlers change the
  word count, edit one slot (keeping ASCII letters only), save (gated by
  validation, lower-casing the words) and clear.
- **Link button** (`LinkButton`, app/Button.tsx). The first `"https://"` is
  removed from a link to give the displayed text. `"https://"` is put in front
  of that text to give the target.

The resolver's scan and formatting are written over any tier table. `Resolve`
applies them to the source's table. The facts that hold only for that table
are proved about `Resolve`: its tiers are disjoint, and its entries have 42
characters.

`Text` holds the JavaScript built-ins these pieces rely on: the decimal
rendering of integers in template literals, `Array.prototype.join`,
`String.prototype.trim` (the exact ECMAScript WhiteSpace and LineTerminator
set) and the ASCII part of `toLowerCase`. `Wrappers` holds `Option`.

Each React handler is modelled as one atomic transition of the component's
state. A class's `Valid()` predicate is its invariant:

- `RecoveryPhrasePage`: `|inputs| == wordCount`, every slot holds letters
  only, and every saved word is a non-empty string of lower-case letters.
- `Tabs`: the result text is empty before the first lookup. After a lookup it
  is the resolver's answer for the address last looked up.

Two places where the code does less, or more, than its own comments and
callers suggest. The model follows the code in both:

- `handleWordCountChange` is documented as taking 12 or 24
  (app/page.tsx:53), and its two buttons pass only those values
  (app/page.tsx:162, 174). The code itself checks nothing
  (app/page.tsx:55-60), so `HandleWordCountChange` takes any natural number.
  `Array(count)` throws a `RangeError` for any count that is not an integer
  in 0..2^32-1. That failure is listed under "Left out".
- `handleButtonClick` wraps the lookup in a `try` whose `catch` only logs
  the error and leaves the result text as it was (app/Tabs.tsx:23-25). The
  resolver is total, so that branch is never taken.

## Model

| member | source | states |
|---|---|---|
| Whitelist.InteractWithWLClick | app/wsinthechat.js:13-35 | the loop over tiers 1..7 followed by the formatting returns exactly `Resolve(address)` |
| Whitelist.LevelsUpTo | app/wsinthechat.js:17-22 | the tiers collected among the first n are at most n in number and each lies in 1..n |
| Whitelist.MatchedLevels | app/wsinthechat.js:14-22 | the full scan over every tier of the table: a strictly ascending list, so at most one level per tier, each a tier number of the table |
| Whitelist.LevelsUpToAscending | app/wsinthechat.js:17-22 | the list built by scanning tiers 1..n in ascending order is strictly ascending |
| Whitelist.LevelsUpToMembers | app/wsinthechat.js:17-21 | after scanning tiers 1..n, tier m ≤ n is in the list iff tier m lists the address |
| Whitelist.MatchedLevelsExact | app/wsinthechat.js:14-22 | the collected levels are strictly ascending (so no duplicates), each a tier number of the table, and tier m is collected iff its list holds the address, by exact equality |
| Whitelist.MatchedLevelsAsSet | app/wsinthechat.js:17-21 | as a set, the collected levels are the tiers of the table that list the address |
| Whitelist.RenderSuffix | app/wsinthechat.js:25-33 | every rendered message is longer than, and ends in, `" WHITELISTED"` |
| Whitelist.RenderNotWhitelistedIff | app/wsinthechat.js:25-33 | the message is `"NOT WHITELISTED"` iff no level was collected |
| Whitelist.RenderOneLevel | app/wsinthechat.js:32-33 | one level n renders as `"LEVEL n WHITELISTED"` |
| Whitelist.RenderTwoLevels | app/wsinthechat.js:32-33 | levels a, b render as `"LEVEL a, LEVEL b WHITELISTED"`, in the order given and `", "`-separated |
| Whitelist.ResolveInMultiTier | app/wsinthechat.js:17-33 | an address listed by tiers 1 and 3 of a table gets `"LEVEL 1, LEVEL 3 WHITELISTED"`: every matching tier is named, in ascending order |
| Whitelist.LevelToken | app/wsinthechat.js:32 | a level's token is `"LEVEL "` followed by digits that read back as the level |
| Whitelist.LevelTokens | app/wsinthechat.js:32 | one token per collected level, token i naming level i |
| Whitelist.Render | app/wsinthechat.js:25-33 | defined as: `"NOT WHITELISTED"` for no levels, otherwise the tokens joined by `", "` followed by `" WHITELISTED"`; `RenderSuffix` and `RenderNotWhitelistedIff` state its properties |
| Whitelist.ResolveIn | app/wsinthechat.js:13-35 | defined as: the message rendered from the levels the scan collects over the given table; `ResolveInDisjoint` and `ResolveInNotWhitelistedIff` state its properties |
| Whitelist.Resolve | app/wsinthechat.js:3-35 | defined as: `ResolveIn` over the source's seven-tier table; `ResolveExact` and `ResolveTotal` state its properties |
| Whitelist.LevelsUpToSingle | app/wsinthechat.js:17-22 | with disjoint tiers, the scan collects the one tier m that lists the address, and only once it reaches m |
| Whitelist.ResolveInDisjoint | app/wsinthechat.js:17-35 | with disjoint tiers, an address listed by tier n gets `"LEVEL n WHITELISTED"` and an address listed nowhere gets `"NOT WHITELISTED"` |
| Whitelist.ResolveInNotWhitelistedIff | app/wsinthechat.js:25-29 | for any table, the answer is `"NOT WHITELISTED"` iff no tier lists the address |
| Whitelist.TableEntriesDistinct | app/wsinthechat.js:3-11 | the fourteen addresses of the table are pairwise distinct |
| Whitelist.TiersAreDisjoint | app/wsinthechat.js:3-11 | no address is listed by two tiers of the source's table |
| Whitelist.ResolveExact | app/wsinthechat.js:1-36 | with the source's table, an address listed by tier n yields exactly `"LEVEL n WHITELISTED"` and an address no tier lists yields `"NOT WHITELISTED"`, so at most one `LEVEL` is ever named |
| Whitelist.ResolveTotal | app/wsinthechat.js:17-35 | for every string the answer is non-empty and ends in `"WHITELISTED"` |
| Whitelist.ResolveNotWhitelistedIff | app/wsinthechat.js:25-29 | the answer is `"NOT WHITELISTED"` iff no tier lists the address |
| Whitelist.TableEntryShape | app/wsinthechat.js:3-11 | every table entry has 42 characters, and its third character is a digit or a lower-case letter |
| Whitelist.ResolveListed | app/wsinthechat.js:3-35 | each of the fourteen table entries is answered with the `LEVEL` of its own tier |
| Whitelist.ResolveWrongLength | app/wsinthechat.js:17-29 | an address that does not have 42 characters is not whitelisted; this includes the empty string |
| Whitelist.ResolveUpperCase | app/wsinthechat.js:3-11 | an address whose third character is an upper-case letter is not whitelisted: no case folding is applied |
| Whitelist.ResolveLowerCaseListed | app/wsinthechat.js:4 | `"0xabcdef…abcd"` yields `"LEVEL 1 WHITELISTED"` |
| Whitelist.ResolveUpperCaseNotListed | app/wsinthechat.js:4 | its upper-case spelling `"0xABCDEF…ABCD"` yields `"NOT WHITELISTED"` |
| TabsComponent.Tabs.constructor | app/Tabs.tsx:8-10 | initial state: tab `'Token Links'`, empty address, empty result text, so no result paragraph |
| TabsComponent.Tabs.SelectTab | app/Tabs.tsx:32-33 | only the active tab changes; address and result text survive the switch |
| TabsComponent.Tabs.HandleInputChange | app/Tabs.tsx:13-15 | the address becomes the field's text verbatim; nothing else changes |
| TabsComponent.Tabs.HandleButtonClick | app/Tabs.tsx:18-26 | the result text becomes `Resolve` of the unmodified current address, which is never empty, so the paragraph is shown while the 'WL Checker' tab is active; tab and address unchanged |
| TabsComponent.ResultShownIffLookedUp | app/Tabs.tsx:35-73 | the result paragraph is shown iff the 'WL Checker' tab is active and a lookup has taken place |
| TabsComponent.Tabs.ResultShown | app/Tabs.tsx:35-73 | defined as: the 'WL Checker' tab is active and the result text is non-empty, the two conditions under which the paragraph is rendered |
| TabsComponent.Tab.Label | app/Tabs.tsx:32-33 | the token-links tab is labelled `'Token Links'` and the checker tab `'WL Checker'`: the two strings the tab state is set to |
| RecoveryPhrase.RecoveryPhrasePage.constructor | app/page.tsx:18-30 | initial state: loading, 12 words, 12 empty slots, empty message, nothing saved; the invariant holds |
| RecoveryPhrase.RecoveryPhrasePage.LoaderElapsed | app/page.tsx:35-38 | the loader flag goes to false and nothing else changes |
| RecoveryPhrase.RecoveryPhrasePage.HandleWordCountChange | app/page.tsx:55-60 | word count := count, slots := count empty strings, message cleared, saved phrase kept; the invariant holds |
| RecoveryPhrase.RecoveryPhrasePage.HandleInputChange | app/page.tsx:67-84 | only slot `index` changes, to the sanitised value; length, word count and saved phrase unchanged; message empty |
| RecoveryPhrase.RecoveryPhrasePage.HandleSave | app/page.tsx:90-111 | when disabled: message is exactly `Please fill in all N words.`, slots and saved phrase unchanged; otherwise the saved phrase is the trimmed, lower-cased slots and the message is cleared |
| RecoveryPhrase.RecoveryPhrasePage.HandleClear | app/page.tsx:117-122 | slots := word-count empty strings, message and saved phrase emptied, word count unchanged |
| RecoveryPhrase.EmptyInputs | app/page.tsx:24 | `Array(count).fill('')` has count elements, all empty |
| RecoveryPhrase.Sanitize | app/page.tsx:69 | the result is no longer than the input, holds ASCII letters only, and is the input itself when that is letters only (so sanitising is idempotent) |
| RecoveryPhrase.SanitizeAppend | app/page.tsx:69 | sanitising distributes over concatenation, so characters keep their order |
| RecoveryPhrase.SanitizeChar | app/page.tsx:69 | one character is kept, case unchanged, iff it is an ASCII letter A-Z or a-z |
| RecoveryPhrase.SanitizeIdempotent | app/page.tsx:69 | sanitising twice equals sanitising once |
| RecoveryPhrase.SanitizeExample | app/page.tsx:69 | `"Ab3!c"` sanitises to `"Abc"` |
| RecoveryPhrase.FinalPhrase | app/page.tsx:100 | one word per slot, word i being slot i trimmed and lower-cased |
| RecoveryPhrase.SaveDisabled | app/page.tsx:47 | defined as: some slot is empty once trimmed; `SaveDisabledIffSomeEmpty` and `EmptyInputsDisableSave` state its properties |
| RecoveryPhrase.RecoveryPhrasePage.IsSaveDisabled | app/page.tsx:47 | defined as: `SaveDisabled` of the current slots, recomputed from the state as the derived constant is on every render |
| RecoveryPhrase.FillMessage | app/page.tsx:95 | defined as: `"Please fill in all "`, the word count in decimal, `" words."`; `FillMessageExamples` and `FillMessageInjective` state its properties |
| RecoveryPhrase.SaveDisabledIffSomeEmpty | app/page.tsx:47 | with letter-only slots, save is disabled iff some slot is empty |
| RecoveryPhrase.LettersTrimToThemselves | app/page.tsx:47 | trimming a string of letters changes nothing |
| RecoveryPhrase.FinalPhraseOfLetterWords | app/page.tsx:100-102 | an enabled save stores, per slot, the slot's letters in lower case, each word non-empty |
| RecoveryPhrase.EmptyInputsDisableSave | app/page.tsx:47 | freshly emptied slots (on mount, after a count change, after clear) disable save |
| RecoveryPhrase.FillMessageExamples | app/page.tsx:95 | the messages are exactly `"Please fill in all 12 words."` and `"Please fill in all 24 words."` |
| RecoveryPhrase.FillMessageInjective | app/page.tsx:95 | different word counts give different messages |
| Text.DecimalString | app/wsinthechat.js:32 | a number renders as a non-empty string of digits with no leading zero, of length 1 iff the number is below 10 |
| Text.DecimalRoundTrip | app/wsinthechat.js:32 | reading a rendered number back gives the number |
| Text.DecimalStringInjective | app/page.tsx:95 | two numbers render alike only if they are equal |
| Text.Join | app/wsinthechat.js:32 | a non-empty list joins to a string that starts with its first element |
| Text.JoinAppend | app/wsinthechat.js:32 | joining left to right, appending separator then element, agrees with the definition |
| Text.Trim | app/page.tsx:47 | the trimmed string is a middle slice of the input with only whitespace before and after it, and it neither starts nor ends with whitespace |
| Text.IsWhitespace | app/page.tsx:47 | defined as: exactly the ECMAScript WhiteSpace and LineTerminator code points that `trim` removes |
| Text.TrimStart | app/page.tsx:47 | the result is a suffix of the input that does not start with whitespace, and the part removed is all whitespace |
| Text.TrimEnd | app/page.tsx:47 | the result is a prefix of the input that does not end with whitespace, and the part removed is all whitespace |
| Text.TrimEmptyIff | app/page.tsx:47 | a string trims to `""` iff it is made of whitespace only |
| Text.TrimNoWhitespace | app/page.tsx:100 | a string without whitespace trims to itself |
| Text.ToLower | app/page.tsx:100 | lower-casing keeps the length and maps each ASCII upper-case letter to its lower-case partner, leaving other characters alone |
| Text.ToLowerOfLetters | app/page.tsx:100 | a string of letters lower-cases to lower-case letters, and lower-casing is idempotent |
| LinkButton.IndexOfFrom | app/Button.tsx:9 | the index found is an occurrence with none before it; none is found only when there is no occurrence |
| LinkButton.IndexOf | app/Button.tsx:9 | the index found is the first occurrence; nothing is found only when there is no occurrence |
| LinkButton.ReplaceFirst | app/Button.tsx:9 | without an occurrence the string is unchanged; otherwise the first occurrence, and only it, is replaced, changing the length by the difference of the two lengths |
| LinkButton.LinkText | app/Button.tsx:9 | the displayed text is the link itself when it holds no `"https://"`, and otherwise the link with its first `"https://"` cut out, 8 characters shorter |
| LinkButton.Site | app/Button.tsx:10 | defined as: `"https://"` followed by the displayed text; `SiteHasScheme` and `SiteIdempotent` state its properties |
| LinkButton.IndexOfFindsFirst | app/Button.tsx:9 | `indexOf` returns the first occurrence, and returns nothing iff there is no occurrence |
| LinkButton.SiteHasScheme | app/Button.tsx:10 | the target always starts with `"https://"` |
| LinkButton.LinkTextWithoutScheme | app/Button.tsx:9 | a link without `"https://"` is displayed unchanged |
| LinkButton.LinkTextRemovesFirstOccurrence | app/Button.tsx:9 | the displayed text is the link with exactly its first `"https://"` cut out, and is 8 characters shorter |
| LinkButton.SiteWithoutScheme | app/Button.tsx:9-10 | a link without `"https://"` gets it put in front |
| LinkButton.SiteWithScheme | app/Button.tsx:9-10 | a link starting with `"https://"` is its own target |
| LinkButton.SiteIdempotent | app/Button.tsx:9-10 | normalising a normalised link changes nothing |
| LinkButton.LinkTextCutsEmbeddedScheme | app/Button.tsx:9 | a `"https://"` in the middle of a link is cut out too: `"a.io/?to=https://b.io"` is displayed as `"a.io/?to=b.io"` |

## Left out

- Presentation: JSX markup, Tailwind classes, the `next/font` set-up, and `Image`/`Link` rendering. Only which text is shown where is modelled.
- app/ConnectWalletButton.tsx and next.config.mjs: framework and SDK configuration with no logic of their own. They are not part of this model.
- The 3-second loader timer (`setTimeout`/`clearTimeout`): the time and the teardown are not modelled. `LoaderElapsed` only models the flag going from true to false.
- Console output (`console.log`, `console.clear`, `console.error`): it has no effect on state.
- The asynchronous wrapping of the lookup and its `catch` branch: the lookup is modelled as synchronous. The branch cannot be reached, because the resolver never fails.
- React semantics: setState batching and stale closures are not modelled. Each handler is one atomic transition.
- The `whitelist[i] &&` guard at app/wsinthechat.js:19: it is always true for tiers 1..7, so the model tests membership directly.
- Text.ToLower: only ASCII letters are lower-cased, because full Unicode case mapping is out of scope. The saved words contain ASCII letters only, so nothing depends on this.
- RecoveryPhrase.RecoveryPhrasePage.HandleWordCountChange: the `RangeError` that `Array(count)` throws for any count that is not an integer in 0..2^32-1 is not modelled. The word count would already have been set by then (app/page.tsx:56), leaving the count out of step with the slots. The `nat` parameter excludes negative, fractional and NaN counts, and the model succeeds for every natural number, including those of 2^32 or more. The callers (app/page.tsx:162, 174) pass only 12 or 24.
- RecoveryPhrase.RecoveryPhrasePage.HandleInputChange: requires `index < |inputs|`. The form's callers only pass indices of existing slots. An out-of-range index, which would grow the JavaScript array, is not modelled.
- Strings are sequences of characters. No Unicode normalisation is applied, matching the source, which applies none either.
- The entered words are held only in the in-memory `savedPhrase` field. The model adds no storage and no transmission.
