# Portfolio page interactivity: the three state machines

This project models the logic of `script.js` in a static portfolio page. It
proves properties of that model in Dafny. Three components of the page hold
state that changes one event or one timer tick at a time. Each component is a
Dafny class with the source's fields and one method per handler. Each method is
specified by a pure function, and the lemmas are proved about those functions.

- **EasterEgg** (`easter_egg.dfy`, module `KeySequence`): the keydown matcher
  for the ten-key Konami code. `currentIndex` is the counter, and the
  `activate` effect is counted in `activations`. A ghost `history` of keys ties
  the object to `Run`, which replays `checkCode` over a sequence of keys.
- **Typewriter** (`typewriter.dfy`, module `TypewriterEffect`): the
  typing/pausing/deleting animation over six fixed phrases. The element's
  `textContent` is a field. `Tick` is one call of `type`, and `Iterate` is
  several ticks in a row.
- **Navigation** (`navigation.dfy`, module `NavigationBar`): the mobile menu
  flag, the `active` classes on the toggle and the menu, the body scroll lock,
  and the scroll rule that hides the nav bar.

Two behaviours of `script.js` are worth stating up front:
- `handleScroll` shows the nav bar in every case except a downward scroll that
  ends past 200 px. This includes a position that did not change and a downward
  scroll that ends between 100 and 200 px (script.js:87-95). `NavHidden`
  states this rule.
- Typing the code with one wrong key inserted after its first element never
  fires. A wrong key in front of the code only resets a counter that is
  already 0, so the code that follows still fires. `WrongKeyInserted` proves
  both cases.

The typewriter transition and its lemmas are stated for any list of non-empty
phrases. The object runs them over the page's six phrases, and
`PageCycleReturnsToFirstPhrase` is the cycle lemma for that list.

## Model

| member | source | states |
|---|---|---|
| `KeySequence.Next` | script.js:264-275 | The counter stays in 0..9. A key equal to `konamiCode[currentIndex]` advances the counter by one. On the tenth element it fires instead and resets to 0. Any other key resets to 0 without firing. |
| `KeySequence.Run` | script.js:256-275 | Between key presses, over any run of keys, the counter stays in 0..9. |
| `KeySequence.ShortRunNeverFires` | script.js:265-271 | The counter grows by at most one per key. A run too short to reach the tenth element never fires. |
| `KeySequence.CodeFiresOnTenthKey` | script.js:257-271 | From counter 0, the first k < 10 keys of the code leave the counter at k with no activation. The full code fires exactly once and leaves the counter at 0. |
| `KeySequence.WrongKeyInserted` | script.js:264-274 | The code with one wrong key inserted before element k fires 0 times for 1 <= k <= 9. It fires once for k = 0. |
| `KeySequence.CounterIsSuffixMatch` | script.js:264-274 | After any keys from counter 0, the last `currentIndex` keys equal the first `currentIndex` elements of the code. |
| `KeySequence.FiringMeansCodeJustTyped` | script.js:265-271 | Whenever a key press fires the activation, the ten keys ending with it are exactly the code. |
| `KeySequence.NoArrowUpStaysReset` | script.js:272-274 | From counter 0, keys that are never "ArrowUp" keep the counter at 0 with no activation. |
| `KeySequence.MismatchIsNotRetested` | script.js:265-274 | A mismatching key is not tested again against the first element. Up, Up, Up leaves the counter at 0. "ArrowUp" followed by the whole code never fires, although it ends with the code. |
| `KeySequence.EasterEgg.constructor` | script.js:256-262 | The counter starts at 0, with no activation and no keys seen. |
| `KeySequence.EasterEgg.CheckCode` | script.js:264-275 | One keydown: the counter and the returned activation are `Next` of the old counter. The activation count grows by one exactly when it fires. A firing key ends the code in the key history. The invariant `Run(0, history) == (currentIndex, activations)` is kept. |
| `TypewriterEffect.Substring` | script.js:137-146 | JavaScript `substring`: the result is never longer than the string. With both bounds in range it is the slice, in either order of the bounds. A start at or below 0 acts as 0, an end at or past the length acts as the length, and two bounds at or below 0 give the empty string. |
| `TypewriterEffect.Tick` | script.js:124-153 | Every tick keeps the invariant. The phrase index is in range, and the text equals the current phrase's first `charIndex` characters. Deleting implies `charIndex > 0`, typing implies `charIndex` is below the length, and a pause happens only on the full phrase while deleting. |
| `TypewriterEffect.PausedTickOnlyResumes` | script.js:127-133 | A paused tick clears `isPaused` and leaves the text, `charIndex`, `phraseIndex` and `isDeleting` unchanged. |
| `TypewriterEffect.TypingTickAppends` | script.js:144-152 | A typing tick appends the next character of the phrase and adds one to `charIndex`. It sets `isDeleting` and `isPaused` exactly when the full length is reached. |
| `TypewriterEffect.DeletingTickRemoves` | script.js:135-143 | A deleting tick removes the last character shown and subtracts one from `charIndex`. Deleting ends exactly when `charIndex` reaches 0. |
| `TypewriterEffect.PhraseAdvancesOnlyWhenEmptied` | script.js:140-143 | `phraseIndex` changes if and only if a deleting tick brings `charIndex` from 1 to 0. It then becomes `(phraseIndex + 1) % |phrases|`, for any list of two or more phrases. |
| `TypewriterEffect.Iterate` | script.js:155-160 | Any number of chained ticks keeps the invariant. |
| `TypewriterEffect.TypingShowsPrefix` | script.js:144-152 | From the start of a phrase, after n <= length ticks, exactly its first n characters are shown. Deleting and the pause start exactly at n = length. |
| `TypewriterEffect.TypingStep` | script.js:144-152 | A typing tick shows one more character of the phrase and moves `charIndex` up by one. It starts deleting and the pause together exactly when the full phrase is shown. |
| `TypewriterEffect.TypesOutPhrase` | script.js:144-152 | From any typing state, the remaining ticks show the whole phrase, paused and about to delete. |
| `TypewriterEffect.DeletesPhrase` | script.js:135-143 | From any deleting state, one tick per character shown empties the text and starts typing the next phrase. |
| `TypewriterEffect.PhaseEndsAtNextPhrase` | script.js:124-153 | 2·length+1 ticks take the animation from the start of a phrase to the start of the next phrase. |
| `TypewriterEffect.CyclesThroughPhrases` | script.js:103-143 | For any list of non-empty phrases, after the first k phases the animation is at the start of phrase k. After all of them it is back at the start of the first phrase. |
| `TypewriterEffect.PageCycleReturnsToFirstPhrase` | script.js:103-143 | The page's six phrases are all non-empty, and the six phases together return the animation to the start of the first phrase. |
| `TypewriterEffect.Typewriter.constructor` | script.js:112-122 | `init` resets the state and runs the first tick, so the state is `Tick` of the start of phrase 0. |
| `TypewriterEffect.Typewriter.Type` | script.js:124-161 | One call of `type`: the new fields are `Tick` of the old ones, and the invariant is kept. The base delay is 1500 after a paused tick, else 40 while deleting and 80 while typing. |
| `NavigationBar.NavHidden` | script.js:86-95 | The bar is hidden if and only if `currentScrollY > 200 && currentScrollY > lastScrollY`. The outer `> 100` test is implied, and at or below 100 the bar is always shown. |
| `NavigationBar.HiddenAfter` | script.js:83-97 | After any series of scroll events, visibility depends only on the last two positions. |
| `NavigationBar.Toggle` | script.js:76-81 | `toggleMenu` flips `isMenuOpen` and both `active` classes. Afterwards the body is locked if and only if the menu is open. It keeps the DOM consistent with the flag when it starts consistent. |
| `NavigationBar.ToggleTwiceRestores` | script.js:76-81 | Toggling twice restores the flag. It restores the whole state if and only if the body lock agreed with the flag. |
| `NavigationBar.Close` | script.js:57-73 | The link and resize handlers only close the menu and never open it. A closed menu is left unchanged, and an open one is toggled. |
| `NavigationBar.Navigation.constructor` | script.js:40-50 | `init` records the current scroll position, with the menu closed. |
| `NavigationBar.Navigation.ToggleMenu` | script.js:76-81 | The menu state becomes `Toggle` of the old one, and the scroll state is unchanged. |
| `NavigationBar.Navigation.OnLinkClick` | script.js:57-63 | A link click applies `Close` to the menu state and leaves the scroll state unchanged. |
| `NavigationBar.Navigation.OnResize` | script.js:69-73 | A resize to a width over 768 applies `Close`. Any other width changes nothing. |
| `NavigationBar.ScrollThrough` | script.js:83-98 | Scroll events delivered to the handler one by one leave the bar as `HiddenAfter` of the starting position and the series says. `lastScrollY` becomes the last position, and the menu is unchanged. |
| `NavigationBar.Navigation.HandleScroll` | script.js:83-98 | The nav bar is hidden if and only if `NavHidden(old lastScrollY, currentScrollY)` holds. `lastScrollY` becomes `currentScrollY`, and the menu is unchanged. |

## Left out

- Loader (script.js:19-36): two timers add a class, with no logic to model.
- ScrollAnimations (script.js:165-216): IntersectionObserver wiring and floating-point parallax offsets.
- ContactForm (script.js:219-253): timer-driven label swaps on the submit button, with no computation.
- EasterEgg `activate` effects (script.js:277-325): DOM creation, CSS, random emoji placement and logging. The model counts activations and nothing else.
- Smooth-scroll anchors (script.js:330-348) and the cursor glow (script.js:352-386): DOM geometry, animation frames and floating-point smoothing.
- Console messages (script.js:389-391).
- Typewriter timers: `Math.random()` jitter and the scheduling itself are not modelled. `Type` returns only the base delay.
- TypewriterEffect.Typewriter.Type: in the source, the paused branch changes nothing itself. Its 1500 ms callback clears `isPaused` and then calls `type` again. The model folds that callback's first statement into the paused tick, so `isPaused` clears at the start of the 1500 ms wait instead of at its end. The text shown over time is the same.
- TypewriterEffect.Typewriter.constructor: the target element's text before the first tick comes from the HTML and is taken as empty. The first tick overwrites it. A page without the target element, where `init` returns early, is not modelled.
- Scroll positions are integers. Browsers may report fractional `scrollY`, and the thresholds compare the same way on them.
- NavigationBar.Navigation.constructor: assumes the page starts with no `active` classes, an unlocked body and no `hidden` class on the nav. The loader's own handling of body overflow is not part of this model.
- Event listener registration (`bindEvents`, `init` wiring, `forEach` over links) is not modelled. Each handler is a method that the environment calls.
