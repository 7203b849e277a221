# Hero carousel, mobile menu and character reveal, modelled in Dafny

This project models the sequential logic of a marketing page's front-end script, `src/js/main.js`. There are three parts:

- **Hero tab carousel** (`initHeroTabs`). `showTab(i)` rewrites the content panels, the tab buttons and the videos so that the ones tagged `String(i)` become active. An auto-switch interval advances to `(i + 1) % N` every 9000 ms. A click on a button shows that tab and restarts the interval. ArrowLeft, ArrowRight, Home and End move focus to the target button and show its tab.
- **Mobile menu** (`initMobileMenu`). A two-state machine: `openMenu` and `closeMenu` set the menu's class and ARIA attributes, the burger's label and the body's `overflow`. The burger toggles between them. The close button, any menu link and Escape close the menu. The Tab focus trap wraps focus between the first and the last focusable element.
- **Character reveal** (`createCharSpans`, `startBlurAnimation`, `applyBlurAnimation`, `animateText`). An element's trimmed text becomes one span per code point, with spaces written as U+00A0. Starting the animation marks every span active.

Page elements are plain records:

- Panels, buttons and videos are datatypes held in arrays, which `showTab` updates in place.
- Each text element is a small class whose content is either plain text or a sequence of spans.
- Menu elements and focus are abstract numbers.

Structure:

- **Modules.** `Wrappers` (an `Option` type), `Decimal` (`String(n)` and `parseInt` on digit strings), `CharSpans`, `HeroTabs`, `MobileMenu`, and `HeroTabsScenario`, a three-tab walk through the carousel.
- **In each module**, pure specification functions come first, then lemmas about them.
- **The classes** `CharSpans.TextElement`, `HeroTabs.Controller` and `MobileMenu.Menu` hold the mutable state. Their methods are proved to change it exactly as the specification functions say.

How external effects are represented:

- **Timers** are a map of live interval handles. A tick of a handle is a method call.
- **The 50 ms delayed text animation** of `showTab` is logged as a pending panel position. `RunTextAnimation` later carries it out as a separate step.
- **`Math.random()`** becomes a caller-supplied draw below 100000.
- **`video.play()` succeeds** exactly when a controller-wide `autoplayAllowed` flag holds. A rejected play only increments a warning counter.

Two facts about the timer:

- Only a click restarts the interval (`src/js/main.js:289-290`). The keydown handler (`src/js/main.js:294-343`) never calls `startAutoSwitch`, so a keyboard move leaves the interval running. `HeroTabs.Controller.KeyDown` does not touch the timer.
- The comment on `AUTO_SWITCH_INTERVAL` (`src/js/main.js:193`) says "10 seconds", but the constant is 9000 ms. The model uses 9000.

## Model

| member | source | states |
|---|---|---|
| Decimal.DigitChar | src/js/main.js:198 | a digit below 10 is written as an ASCII digit |
| Decimal.DigitValue | src/js/main.js:287 | an ASCII digit reads as a value below 10 |
| Decimal.DigitRoundTrip | src/js/main.js:198 | reading back a written digit gives the digit |
| Decimal.NatToString | src/js/main.js:198 | `String(n)` is a nonempty digit string with no leading zero unless it is "0" |
| Decimal.ParseOfString | src/js/main.js:198 | `parseInt(String(n), 10) == n` for every natural n |
| Decimal.StringInjective | src/js/main.js:198-205 | for naturals, `String(i) == String(j)` exactly when `i == j`, so comparing the text singles out one index |
| Decimal.StringOfParse | src/js/main.js:287 | a canonical digit string is `String` of its parsed value |
| Decimal.LeadingDigitPositive | src/js/main.js:287 | a digit string not starting with '0' parses to at least 1 |
| CharSpans.SpansText | src/js/main.js:50-56 | the text of a span list is its spans' characters in order |
| CharSpans.LeadingSpace | src/js/main.js:45 | counts exactly the leading characters `trim` removes |
| CharSpans.TrailingSpace | src/js/main.js:45 | counts exactly the trailing characters `trim` removes |
| CharSpans.Trim | src/js/main.js:45 | `trim` is empty exactly when every character is white space, and otherwise starts and ends with a non-space |
| CharSpans.TrimIsSlice | src/js/main.js:45 | `trim` returns a contiguous slice, removing only white space at the two ends |
| CharSpans.SpanChar | src/js/main.js:52 | a span never shows an ordinary space, and every other character is kept as it is |
| CharSpans.SpansOf | src/js/main.js:50-56 | one span per code point |
| CharSpans.SpansOfSnoc | src/js/main.js:50-56 | appending one character's span extends the span list by exactly that span |
| CharSpans.ClassFor | src/js/main.js:42 | the shared class starts with `char-` |
| CharSpans.CreatedGuards | src/js/main.js:37-46 | `createCharSpans` leaves the element unchanged exactly when it already has spans, blur is off, or the trimmed text is empty |
| CharSpans.CreatedShape | src/js/main.js:45-56 | otherwise the element has one span per code point of the trimmed text, in order, all with one `char-` class, at positions 0.., none active, and its text is the trimmed text with spaces made U+00A0 |
| CharSpans.CreatedHasNoSpace | src/js/main.js:52 | the text of a freshly split element contains no ordinary space |
| CharSpans.CreatedIdempotent | src/js/main.js:37 | a second `createCharSpans` changes nothing, whatever its random class |
| CharSpans.ActivatedIdempotent | src/js/main.js:60-67 | `startBlurAnimation` twice equals once and keeps the text and the split |
| CharSpans.AppliedAllActive | src/js/main.js:348-361 | with blur on, after `applyBlurAnimation` every span is active |
| CharSpans.AppliedIdempotent | src/js/main.js:348-361 | `applyBlurAnimation` twice equals once |
| CharSpans.InActiveTabExactly | src/js/main.js:374-379 | `animateText` animates an element exactly when it has no enclosing panel or that panel is active |
| CharSpans.TextElement.constructor | src/js/main.js:45 | a fresh element holds plain text |
| CharSpans.TextElement.CreateCharSpans | src/js/main.js:36-57 | the loop appends spans so that the content becomes `Created` of the old content |
| CharSpans.TextElement.StartBlurAnimation | src/js/main.js:60-67 | the loop marks every span active: the content becomes `Activated` of the old content |
| CharSpans.TextElement.ApplyBlurAnimation | src/js/main.js:348-361 | the content becomes `Applied` of the old content: the guard, then creation, then activation |
| CharSpans.DistinctParts | src/js/main.js:220-229 | the title and description lists of a panel share no element and have no repeats |
| CharSpans.ApplyToAll | src/js/main.js:224-229 | `forEach(applyBlurAnimation)` applies it to each listed element with its own draw and to nothing else |
| CharSpans.AnimateText | src/js/main.js:363-383 | with blur on, exactly the elements in an active tab (or in no tab) are animated, the others are unchanged; with blur off nothing changes |
| HeroTabs.NextIndex | src/js/main.js:276 | the auto-advance target is a valid index |
| HeroTabs.NextIndexSteps | src/js/main.js:275-278 | auto-advance moves one to the right and wraps from the last tab to 0 |
| HeroTabs.KeyTarget | src/js/main.js:294-343 | exactly ArrowLeft, ArrowRight, Home and End have a target, and for an in-range button it is in range |
| HeroTabs.KeyTargetEnds | src/js/main.js:298-341 | ArrowRight on the last wraps to 0, ArrowLeft on 0 wraps to N-1, Home targets 0, End targets N-1 |
| HeroTabs.ArrowsAreInverse | src/js/main.js:298-321 | ArrowRight is the auto-advance step and ArrowLeft undoes it (and the reverse) |
| HeroTabs.FindButton | src/js/main.js:302-305 | `find` returns the first button whose parsed index is the target, or none when no button has it |
| HeroTabs.WhereBelowExactly | src/js/main.js:201-261 | the positions below n where a mask holds, each once, in increasing order |
| HeroTabs.WhereExactly | src/js/main.js:201-261 | a log lists exactly the positions where the mask holds, in document order, each once |
| HeroTabs.PanelTagged | src/js/main.js:205 | one flag per panel |
| HeroTabs.PanelRestarts | src/js/main.js:210 | one flag per panel |
| HeroTabs.VideoTagged | src/js/main.js:252 | one flag per video |
| HeroTabs.ShowPanels | src/js/main.js:201-235 | one rewritten panel per panel |
| HeroTabs.ShowButtons | src/js/main.js:238-247 | one rewritten button per button |
| HeroTabs.ShowVideos | src/js/main.js:250-261 | one rewritten video per video |
| HeroTabs.PanelsAfterShow | src/js/main.js:201-235 | after `showTab` a panel is active with `aria-hidden="false"` exactly when its `data-tab` is `String(i)`, otherwise inactive with "true"; tags and the flowers and animated classes are kept; fadeInRight is kept with a restarted panel included |
| HeroTabs.ButtonsAfterShow | src/js/main.js:238-247 | a button is active with `aria-selected="true"` exactly when its `data-tab-index` is `String(i)`, otherwise "false"; its index text is kept |
| HeroTabs.VideosAfterShow | src/js/main.js:250-261 | every other video is paused at time 0; a tagged one is unpaused when autoplay is allowed and is otherwise left exactly as it was (the rejection is only logged); tags are kept |
| HeroTabs.ShowIdempotent | src/js/main.js:196-262 | showing the same tab twice leaves every element as the first call did |
| HeroTabs.ExactlyOneActive | src/js/main.js:201-247 | with exactly one panel and one button tagged i, exactly one of each is active, and they carry the same index |
| HeroTabs.ActiveButtonParses | src/js/main.js:238-247 | an active button's parsed index is the shown tab |
| HeroTabs.OtherTabsHidden | src/js/main.js:231-234 | a panel tagged with any other index is inactive and hidden |
| HeroTabs.ControllerOneActive | src/js/main.js:201-235 | in a running carousel whose current index tags exactly one panel and one button, exactly one panel is active |
| HeroTabs.Controller.constructor | src/js/main.js:182-282 | no buttons or no panels: nothing happens and no timer runs; otherwise tab 0 is shown and interval 1 of period 9000 is the only live one |
| HeroTabs.Controller.ShowTab | src/js/main.js:196-262 | `currentTabIndex := i`; panels, buttons and videos are rewritten per tag; restarts, delayed text animations and play requests are logged by position, and warnings are counted; the invariant holds |
| HeroTabs.Controller.ShowPanelsStep | src/js/main.js:201-235 | the panel loop rewrites each panel and logs the tagged and the restarted ones in order |
| HeroTabs.Controller.ShowPanelAt | src/js/main.js:202-234 | one panel is rewritten, the others are untouched, and the method reports whether it was tagged and restarted |
| HeroTabs.Controller.ShowButtonsStep | src/js/main.js:238-247 | the button loop rewrites each button |
| HeroTabs.Controller.ShowVideosStep | src/js/main.js:250-261 | the video loop rewrites each video, logs play requests, and counts one warning per rejected play |
| HeroTabs.Controller.StartAutoSwitch | src/js/main.js:268-279 | the old interval is cleared before a new one of period 9000 is set, so exactly one is live |
| HeroTabs.Controller.Tick | src/js/main.js:275-278 | a live interval shows `(current + 1) % N`; a cleared handle changes nothing |
| HeroTabs.Controller.Click | src/js/main.js:285-291 | shows the button's parsed index, then restarts the interval: the old handle is no longer live and the new one is the only one |
| HeroTabs.Controller.KeyDown | src/js/main.js:294-343 | a handled key is prevented; when a button with the target index exists it is focused and its tab shown; the interval is untouched; other keys change nothing |
| HeroTabs.Controller.RunTextAnimation | src/js/main.js:219-230 | the oldest scheduled panel's titles, then its descriptions, get `applyBlurAnimation` |
| HeroTabsScenario.ShowKeepsTags | src/js/main.js:201-247 | showing any tab keeps the tags of the three panels and buttons |
| HeroTabsScenario.Load | src/js/main.js:182-282 | a three-tab page starts on tab 0 with interval 1 live |
| HeroTabsScenario.AutoAdvance | src/js/main.js:275-278 | one tick moves from tab 0 to tab 1 |
| HeroTabsScenario.ClickThird | src/js/main.js:285-291 | a click on the third button shows tab 2 and replaces the interval by a fresh one, handle 2 |
| HeroTabsScenario.ArrowRightOnThird | src/js/main.js:310-321 | ArrowRight on the third button wraps to tab 0, focuses the first button, makes panel 0 and button 0 the only active ones, and leaves the interval alone |
| HeroTabsScenario.ThreeTabs | src/js/main.js:182-345 | load, tick, click, ArrowRight show tabs 0, 1, 2, 0; at the end focus is on the first button, only panel 0 and button 0 are active, and the only live interval is the one the click started |
| MobileMenu.Open | src/js/main.js:105-115 | opening sets the open attributes and focuses the first link when there is one |
| MobileMenu.Close | src/js/main.js:117-123 | closing sets the closed attributes and leaves focus alone |
| MobileMenu.Dismiss | src/js/main.js:135-138 | the close button closes the menu and focuses the burger |
| MobileMenu.Burger | src/js/main.js:125-133 | the burger closes an open menu (focusing itself) and opens a closed one |
| MobileMenu.Escape | src/js/main.js:148-156 | Escape on an open menu dismisses it; any other key or a closed menu changes nothing |
| MobileMenu.TrapTarget | src/js/main.js:164-177 | a target exists exactly for Shift+Tab on the first or Tab on the last focusable; it is the last resp. the first, inside the menu |
| MobileMenu.Trap | src/js/main.js:159-179 | the trap only changes focus, and does nothing on a closed menu or a key other than Tab |
| MobileMenu.OpenCloseInverse | src/js/main.js:105-123 | closing undoes opening and opening undoes closing, as far as attributes go |
| MobileMenu.BurgerTwice | src/js/main.js:125-133 | two burger clicks restore the attributes; from closed, focus ends on the burger |
| MobileMenu.TransitionsKeepConsistent | src/js/main.js:105-179 | every handler keeps the attributes consistent with the class; opening and closing establish it |
| MobileMenu.ClosedMenuIgnoresKeys | src/js/main.js:148-162 | on a closed menu Escape and the trap change nothing and prevent nothing |
| MobileMenu.TrapWraps | src/js/main.js:169-177 | Shift+Tab on the first moves focus to the last, and Tab there brings it back |
| MobileMenu.TrapStaysInside | src/js/main.js:159-179 | the trap moves focus only when it prevents the default, and only onto a focusable element in the menu |
| MobileMenu.Menu.constructor | src/js/main.js:92-103 | with all three elements present the menu is marked `aria-hidden="true"`; otherwise nothing changes |
| MobileMenu.Menu.OpenMenu | src/js/main.js:105-115 | the fields become `Open` of the old state |
| MobileMenu.Menu.CloseMenu | src/js/main.js:117-123 | the fields become `Close` of the old state |
| MobileMenu.Menu.DismissMenu | src/js/main.js:135-138 | close, then focus the burger |
| MobileMenu.Menu.BurgerClick | src/js/main.js:125-133 | the fields become `Burger` of the old state when the listener is installed |
| MobileMenu.Menu.CloseButtonClick | src/js/main.js:135-138 | the fields become `Dismiss` of the old state |
| MobileMenu.Menu.LinkClick | src/js/main.js:140-145 | a link click dismisses the menu |
| MobileMenu.Menu.DocumentKeyDown | src/js/main.js:148-156 | the fields become `Escape` of the old state |
| MobileMenu.Menu.MenuKeyDown | src/js/main.js:159-179 | the fields become `Trap` of the old state, and the default is prevented exactly when the trap moves focus |

## Left out

- The CSS injected into the document head (`src/js/main.js:14-33`): static styling text.
- The WOW scroll-reveal integration (`src/js/main.js:69-87`): it is a foreign library reached through a callback.
- Timeouts are not timed. The 50 ms text animation of `showTab` is a logged position that `RunTextAnimation` carries out later. The 100 ms page-load sequence (`src/js/main.js:386-407`) is not modelled as a whole. It consists of `createCharSpans` on the hero, teams and delivery text and `animateText` on the hero text, and each of those steps is modelled.
- The layout reflow that restarts the flowers animation (`src/js/main.js:212-215`) is not modelled. The model records only that a restart happened and that `animate__fadeInRight` is present afterwards.
- `Math.random()` (`src/js/main.js:42`): nondeterministic, so it is a draw supplied by the caller.
- `animationDelay = i * charDelay` (`src/js/main.js:43, 54`) is floating-point seconds. Only the span's integer position is kept.
- The `video.play()` promise and `console.warn` (`src/js/main.js:253-256`) are asynchronous. They are reduced to the `autoplayAllowed` flag, a play-request log and a warning counter.
- HeroTabs.Controller.ShowVideosStep: a rejected play leaves the video's `paused` state as it was. The model does not cover a play that is still in flight.
- `document.body.style.overflow` is a string field. Real DOM focus is an abstract element number for the menu and a button position for the carousel. Native focus moves, for example a plain Tab, are not modelled.
- Decimal.NatToString, Decimal.DigitsValue: tab indices are unbounded naturals. JS numbers are doubles, exact only below 2^53, and `String` writes exponent notation from 1e21 on. A page's tab indices are far below both.
- HeroTabs.ButtonIndex: `parseInt` is modelled only on nonempty ASCII digit strings, with leading zeros allowed. NaN, signs, white space and trailing garbage are left out: the model assumes every `data-tab-index` is such a string.
- The CSS selectors (`.hero__tab-content`, `a, button, [tabindex]:not([tabindex="-1"])`, `span[class^="char-"]`, `closest`) are not evaluated. Their results are inputs: arrays, lists of element numbers, and each text element's enclosing-panel flag.
- Focusable elements are queried on every keydown in the code. The model takes them as fixed, because the menu's markup does not change.
- Event propagation is not modelled. A keydown inside the menu reaches both the menu's listener and the document's. The two are separate methods, and since one handles only Tab and the other only Escape, the order between them does not matter.
