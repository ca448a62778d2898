# fun-amazing-facts: a Dafny model of the page script

The page script `index.js` of the fun-amazing-facts site is modelled here, together with proofs about it. The script greets the visitor by a remembered name and offers a light/dark theme toggle and a rename button. It keeps a fixed table of facts by category. It shows a random fact on demand. It turns a click on a navigation link into a fact of the category the link's text names. It also rotates the page background on a timer. It defines an image slider as well, but as written its calls never start one (see "## Left out").

The model has one module per concern:

- `Text`: the white space that JavaScript's `trim` removes, `trim` itself, and the case-insensitive substring test that a regular expression literal such as `/Cosmos/i` performs.
- `Facts`: the `factsByCategory` table and the global pool `Object.values(...).flat()`. It also holds the pick `Math.floor(r * n)` and the text a category link displays.
- `Resolver`: the if/else-if chain that maps a link's trimmed text to a category key, written as an ordered rule table with a first-match function.
- `Clicks`: the early-return condition of the link click handler. It is modelled both as written and as intended (see Findings).
- `Preferences`: page load, the theme button and the rename button, as pure functions on a value. The value holds the storage map, the dark flag, the button text and the heading.
- `Page`: a class whose fields hold that state plus the fact paragraph and its pending fade timers. Its methods are the event handlers, each proved against the `Preferences` and `Facts` functions.
- `Carousel`: the background counter and the counter of `makeImageSlider`. Both advance with `(i + 1) % n`. There is one class per rotation.

The environment is made into parameters:

- `Math.random()` is a real number `r` with `0 <= r < 1`.
- `prompt` is its reply: `None` when the visitor cancels.
- `localStorage` is a `map<string, string>`.
- The initial `dark-mode` class of the body is a flag.
- A timer firing is a method that the environment calls.

## Model

| member | source | states |
|---|---|---|
| Text.TrimStartShape | index.js:168 | `trim` keeps a suffix that does not start with white space, and what it drops is all white space |
| Text.TrimEndShape | index.js:168 | the same at the other end: a prefix that does not end with white space, and the dropped part is all white space |
| Text.TrimShape | index.js:168 | the trimmed text is a contiguous piece of the input, with only white space cut from either end and none left at its ends (`Trim`) |
| Text.TrimIdempotent | index.js:40 | trimming a trimmed reply changes nothing |
| Text.SameLetterOnLetters | index.js:169-175 | against an ASCII letter of a pattern, a text character matches exactly when it is that letter in upper or lower case |
| Text.ContainsICMeaning | index.js:169-175 | `/pat/i.test(text)` holds exactly when the pattern matches case-insensitively at some position of the text (`ContainsIC`) |
| Text.AbsentFirstLetter | index.js:169-175 | a pattern whose first letter matches no character of the text does not occur in it |
| Text.ContainsIgnoresTrim | index.js:168-175 | for a non-empty pattern without white space, testing the trimmed text and testing the raw text give the same answer |
| Facts.CategoryOrderIsKeys | index.js:81-110 | the declaration order lists every key of the table exactly once |
| Facts.EveryCategoryHasFacts | index.js:81-110 | every category has at least one fact |
| Facts.PoolIsPartOfGlobal | index.js:177 | the pool that a table key looks up is non-empty, and each of its facts is also in the global pool |
| Facts.FlattenPlacement | index.js:136 | after `.flat()`, the k-th list appears unchanged right after all the lists before it |
| Facts.FlattenMember | index.js:136 | a string is in the flattened list exactly when it is in one of the lists |
| Facts.GlobalPoolOrder | index.js:136 | the global pool holds each category's facts as one contiguous block, in declaration order (`AllFacts`) |
| Facts.GlobalPoolMembers | index.js:136 | a fact is in the global pool exactly when some category holds it |
| Facts.AllFactsNonEmpty | index.js:136-137 | the global pool is never empty, so the pick always has an index to choose |
| Facts.PickIndex | index.js:137 | `Math.floor(r * n)` for `r` in [0, 1) is a valid index `i` with `i <= r * n < i + 1` |
| Facts.PickReachesEvery | index.js:137 | every index of the list can come out of the pick |
| Facts.GlobalFact | index.js:136-137 | the random fact is a member of the global pool and belongs to some category |
| Facts.CategoryText | index.js:177-180 | an empty pool shows the "No facts found" message; otherwise one of the pool's facts is shown behind `(key) ` |
| Facts.LabelledIsNotFallback | index.js:178-180 | a labelled fact never reads as the empty-pool message |
| Resolver.FirstMatch | index.js:167-175 | the key of the first rule whose pattern occurs in the text, or the starting key when no pattern occurs |
| Resolver.RuleKeysAreCategories | index.js:167-175 | every key that the chain or its starting value can assign names a category of the table |
| Resolver.ResolvedKeyIsCategory | index.js:167-177 | the resolved key is always a key of the table |
| Resolver.ResolveEarliestWins | index.js:169-175 | if rule k occurs in the trimmed text and no earlier rule does, the key is rule k's key (`ResolveLabel`) |
| Resolver.ResolveNoLaterThan | index.js:169-175 | when a rule occurs, the result comes from a rule no later than it: an earlier rule beats a later one |
| Resolver.ResolveDefault | index.js:167 | when no pattern occurs, the key `ResolveLabel` gives is `Innovations` |
| Resolver.ResolvedFromRule | index.js:167-175 | a key other than `Innovations` always comes from a rule that fired |
| Resolver.ResolvedPoolNonEmpty | index.js:177-180 | every key that the resolver produces has facts, so a link never shows the "No facts found" message |
| Resolver.PatternsAreLetters | index.js:169-175 | every pattern of the chain is non-empty and made of ASCII letters only |
| Resolver.PatternsHaveNoSpace | index.js:169-175 | every pattern of the chain is non-empty and free of white space |
| Resolver.ResolveIgnoresSurroundingSpace | index.js:168-175 | white space around the link text never changes its category |
| Resolver.LoveBeatsLaterRules | index.js:169-175 | a link text containing "love" resolves to Religion, Cosmos, Animal or Love, never to a rule tested after Love |
| Resolver.CosmosFactsLink | index.js:167-175 | the link "Cosmos Facts" resolves to `Cosmos` |
| Resolver.CosmosFactsText | index.js:167-180 | a click on "Cosmos Facts" shows a text starting with "(Cosmos) " |
| Clicks.AsWrittenOnlyMiddleButton | index.js:164 | as written (`ExemptAsWritten`), the early return is taken exactly for the middle button, and the modifier keys play no part |
| Clicks.ExemptIntended | index.js:163-164 | with no modifier key held, the intended condition agrees with the written one |
| Clicks.IntendedExemptsMore | index.js:163-164 | every click that the written condition exempts, the intended one exempts too |
| Clicks.CtrlClickNotExemptAsWritten | index.js:164 | a Ctrl-click with the primary button is not exempt as written, but is exempt as intended |
| Preferences.ThemeLabel | index.js:53-55 | the button reads "Light" exactly in dark mode and "Dark" exactly in light mode |
| Preferences.ThemeValue | index.js:58 | the stored theme is "dark" exactly in dark mode and "light" exactly in light mode |
| Preferences.PromptedName | index.js:40 | a cancelled reply, or one that trims to nothing, gives no name; otherwise the name is the trimmed reply and is non-empty |
| Preferences.Load | index.js:37-78 | after load the label matches the theme; the page is dark exactly when the body started dark or "dark" is stored; a stored name is greeted without change to the storage; otherwise a usable reply is stored and greeted; otherwise nothing changes |
| Preferences.ToggleTheme | index.js:56-60 | the theme flips, the new theme is stored under `theme`, the label follows, and the heading is unchanged |
| Preferences.Rename | index.js:64-71 | a usable reply is stored under `visitorName` and greeted; a cancelled or blank reply changes nothing |
| Preferences.ToggleTwice | index.js:56-60 | two toggles restore theme, label and heading, and leave the current theme stored |
| Preferences.LoadStoredDark | index.js:77-78 | with "dark" stored, the page loads dark and offers the light theme |
| Preferences.LoadIgnoresReplyWhenNameStored | index.js:37-42 | with a usable stored name, the prompt's reply makes no difference |
| Preferences.LoadGreetsAda | index.js:37-46 | with no name stored and the reply "Ada", the heading reads "Hello, Ada!" and "Ada" is stored |
| Preferences.TrimmedReply | index.js:40 | a non-empty reply without surrounding white space is taken as it is |
| Preferences.RenamePersists | index.js:37-71 | the name a rename stores is greeted on the next load, without a prompt |
| Preferences.ThemePersists | index.js:56-78 | on a page whose body starts light, the theme that a toggle stores is restored by the next load |
| Preferences.LoadNeverClearsDark | index.js:77 | load only ever adds the dark class: a page whose body starts dark stays dark and its button offers the light theme, even with `light` stored |
| Page.Page.constructor | index.js:33-122 | the loaded state is exactly `Preferences.Load` of the storage, heading, initial body class and reply; the paragraph holds the placeholder; no fade is pending |
| Page.Page.ToggleTheme | index.js:56-60 | the new state is `Preferences.ToggleTheme` of the old one, and the fact widget is untouched |
| Page.Page.Rename | index.js:64-71 | the new state is `Preferences.Rename` of the old one, and the fact widget is untouched |
| Page.Page.ClickRandomFact | index.js:135-144 | the paragraph starts fading, and a timer is queued carrying the pool fact that `r` picks; the text itself is unchanged until the timer fires |
| Page.Page.FireFadeTimer | index.js:141-144 | the oldest pending timer fires: its fact becomes the text and the fading stops |
| Page.Page.ClickCategoryLink | index.js:162-180 | the early return is taken exactly for the middle button, as the condition is written, and then changes nothing; any other click, including a Ctrl-, Meta- or Shift-click, shows `CategoryText` of the resolved key's pool, never the empty-pool message; the invariant keeps every displayed text a placeholder, a pool fact or a labelled category fact |
| Carousel.Next | index.js:206 | `(i + 1) % n` is a valid index: the successor, or 0 after the last position |
| Carousel.AfterFirstRound | index.js:198-206 | in the first n advances from 0 the counter visits every position once, in order |
| Carousel.AfterPeriodic | index.js:206 | after n more advances the counter is back where it was |
| Carousel.AfterIsMod | index.js:198-206 | after k advances from 0 the counter is k mod n |
| Carousel.Background.constructor | index.js:186-198 | the nine background images in order, with the counter at 0 |
| Carousel.Background.Tick | index.js:200-207 | shows the image at the counter, then advances it; the k-th firing shows image k mod 9 |
| Carousel.Slider.constructor | index.js:209-234 | the counter starts at 0, and the image and its clone show the same picture |
| Carousel.Slider.Tick | index.js:236-244 | advances the counter, slides the image out, puts the next picture in the clone and queues the swap; after k firings the clone shows image k mod n |
| Carousel.Slider.FireSwap | index.js:244-247 | the image takes the picture at the counter's value when the swap fires, and slides back |

## Left out

- The DOM and CSS are not modelled: the injected style sheet (index.js:8-31), building the toolbar and the widget (49-52, 62-63, 73-74, 113-132), hover colours (154-161), `scrollIntoView` (181) and the pop-in animation (147-149).
- The body's `dark-mode` class before the script runs is a parameter of `Page.Page.constructor`. Only the toggle and the stored theme change it afterwards.
- `Math.random` and floating point: the random number is an exact real in [0, 1). `Math.floor(r * n)` is taken on reals, without rounding.
- Timers are not modelled as time. A pending timer is an entry in a queue, and the environment fires it by calling `FireFadeTimer` or `FireSwap`. Fade timers all have the same 400 ms delay, so they fire oldest first, as the queue models. The intervals' periods and the `interval` argument that the slider calls leave undefined are not modelled.
- Page.Page.ClickCategoryLink: the default action of the link is not prevented, because `e.preventDefault()` is commented out. The navigation that follows every click is outside the model.
- Text.Upper: folds ASCII letters only. JavaScript's non-unicode `/i` also upper-cases other letters, such as `é` to `É`. Matching is still exact for the chain's patterns, which are all ASCII letters, because that `/i` never maps a non-ASCII character onto an ASCII one (`Resolver.PatternsAreLetters`, `Text.SameLetterOnLetters`).
- Facts.Pool: a key outside the table gives the empty list. In JavaScript an inherited property name such as `constructor` would give a non-list value. The resolver only ever produces table keys (`Resolver.ResolvedKeyIsCategory`), so this case never arises.
- Carousel.Slider.constructor: requires a non-empty list of pictures. With an empty list the source's counter becomes NaN. Every call in the script passes a non-empty list.
- No slider ever runs as the script is written. Each call (index.js:253-266) passes an image element where `getElementById` expects an id, so the lookup returns `null` and `makeImageSlider` returns at `if (!targetImg) return;` (index.js:210-211). That lookup and early return are not modelled. `Carousel.Slider` models the body of `makeImageSlider` for an image it does find, which is not something the page does.
- The welcome modal, its buttons and the redirect (index.js:267-281) are not modelled.
- `js/script.js` is not part of this model.

## Findings

| source | as written | input that shows it | evidently intended | confidence | as-written member | corrected member |
|---|---|---|---|---|---|---|
| index.js:164 | `if (e.ctrlKey, e.metaKey, e.shiftKey, e.button === 1) return;` is a comma expression, so the condition is `e.button === 1` alone | a Ctrl-click with the primary button: ctrlKey true, button 0 | return early when Ctrl, Meta or Shift is held or the middle button is used, as the comment on line 163 says | not executed | Clicks.CtrlClickNotExemptAsWritten | Clicks.ExemptIntended |

The handler `Page.Page.ClickCategoryLink` keeps the behaviour as written: it branches on `Clicks.ExemptAsWritten`, so a Ctrl-, Meta- or Shift-click with the primary button still shows a fact. `Clicks.ExemptIntended` is the corrected condition, and `Clicks.IntendedExemptsMore` and `Clicks.CtrlClickNotExemptAsWritten` relate the two.
