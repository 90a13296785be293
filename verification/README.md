# SpaceCongo site script, modelled in Dafny

`main.js` is the behaviour script of the SpaceCongo marketing site. It works out the
current page from the URL and marks the matching navigation link. It sets the
document title from a page table and exposes a page-content table. It animates the
statistic counters. It validates required form fields and simulates sending them.
It also flips the mobile menu, the dropdown and the header classes.

This model keeps the decisions those handlers make and replaces the DOM with plain values:

- the URL path is a string;
- each navigation link is its `href` plus an active flag;
- form controls are records with a value, a default value, a `required` flag and a border;
- the submit button is a label (its authored caption or the busy spinner) plus a disabled flag;
- the menu, dropdown and header classes are booleans;
- the viewport width and the scroll offset are inputs of the events that read them;
- each timer is one discrete step: a completion event for the form, and the list of values shown for the counter.

Modules, one per component of the script:

- `JsStrings` (`js_strings.dfy`): the JavaScript string operations the script uses. These are `trim` with its exact whitespace set, `includes`, `replace` with a string pattern (first occurrence only) and `split("/").pop()`.
- `SiteConfig` (`site_config.dfy`): the site configuration and the current-page derivation.
- `ActiveNavigation` (`active_navigation.dfy`): `setActiveNavigation`.
- `PageTables` (`page_tables.dfy`): `updatePageTitle` and `loadPageContent`. It also holds the lookups as the script writes them, which differ on inherited property names (see Findings).
- `StatCounter` (`stat_counter.dfy`): `countUp`.
- `Forms` (`forms.dfy`): the submit handler of `initForms`.
- `Navigation` (`navigation.dfy`): the menu, dropdown, outside-click and scroll handlers.
- `Wrappers` (`wrappers.dfy`): `Option`.

## Model

| member | source | states |
|---|---|---|
| JsStrings.IsJsWhitespace | main.js:178 | the characters `trim` strips include space, tab, line feed and carriage return and exclude every ASCII letter and digit; the body lists ECMA-262's full WhiteSpace and LineTerminator set |
| JsStrings.TrimStart | main.js:178 | the result is a suffix of the input; everything dropped is whitespace; the result does not start with whitespace |
| JsStrings.TrimEnd | main.js:178 | the result is a prefix of the input; everything dropped is whitespace; the result does not end with whitespace |
| JsStrings.Trim | main.js:178 | the result is no longer than the input and, when non-empty, starts and ends with non-whitespace |
| JsStrings.TrimEmptyIffBlank | main.js:178 | `value.trim()` is empty exactly when every character of the value is JavaScript whitespace |
| JsStrings.IndexOf | main.js:225 | the result is the first index where the pattern occurs, or none exactly when it occurs nowhere |
| JsStrings.Contains | main.js:225 | `includes` holds exactly when the pattern occurs at some index |
| JsStrings.ReplaceFirst | main.js:225 | for a replacement without `$`, the input is unchanged when the pattern is absent; otherwise only the first occurrence is replaced |
| JsStrings.LastSegment | main.js:5 | `split("/").pop()` has no separator in it, is a suffix of the input, and is preceded by a separator unless it is the whole input |
| JsStrings.LastSegmentAfterSeparator | main.js:5 | after a separator, a separator-free tail is exactly the last segment |
| SiteConfig.CurrentPage | main.js:5 | the current page is never empty and has no `/`; it is the last path segment, or `index.html` when that segment is empty |
| SiteConfig.Init | main.js:2-6 | the configuration carries the fixed site name, the origin, and the current page derived from the path |
| SiteConfig.DirectoryPathIsIndex | main.js:5 | a path ending in `/` (the site root included) is the index page |
| SiteConfig.PageInDirectory | main.js:5 | a page under any directory is named by its file name |
| SiteConfig.NestedPageName | main.js:5 | `/fr/contact.html` is the page `contact.html` |
| ActiveNavigation.IsActive | main.js:222-227 | an href equal to the page always matches; the index link matches exactly on the index or empty page; any other link matches exactly when the page includes its href with the first `.html` removed |
| ActiveNavigation.SetActiveNavigation | main.js:215-230 | links keep their order and hrefs; a link is active exactly when it matches the current page by the three-way rule, and an href equal to the page is always active |
| ActiveNavigation.MarkingIgnoresPreviousState | main.js:218-228 | the marking depends on the hrefs only, because every link is cleared first |
| ActiveNavigation.EmptyPageBranchIsDead | main.js:222-227 | on a page derived from a URL, the empty-page branch never fires; the rule is equality, or the stem fallback for non-index links |
| ActiveNavigation.IndexLinkOnlyOnIndexPage | main.js:222-227 | the `index.html` link is active exactly on the index page |
| ActiveNavigation.StemOfHtmlHref | main.js:225 | removing the first `.html` from `stem.html` gives the stem when the stem has no dot |
| ActiveNavigation.StemLinkActiveIff | main.js:225-226 | a non-index link `stem.html` is active exactly on pages whose name includes `stem` |
| ActiveNavigation.SeveralLinksCanBeActive | main.js:215-230 | the marking does not keep links exclusive: on `blog-archive.html`, both `blog.html` and `blog-archive.html` are active |
| PageTables.PageName | main.js:238-250 | a listed page gets its table title; any other page gets the site name |
| PageTables.DocumentTitle | main.js:237-252 | a listed page is titled with its own table title, and any other page with `SpaceCongo`, followed in both cases by ` \| SpaceCongo - Solutions Immobilières Intelligentes`; the page name comes from the corrected lookup `PageName` of the main.js:250 Finding, so an inherited name such as `toString` is titled `SpaceCongo` here |
| PageTables.TitleDeterminesPageName | main.js:250-251 | two pages get the same title exactly when they get the same page name |
| PageTables.UnlistedPagesShareTitle | main.js:250-251 | every unlisted page gets `SpaceCongo` followed by the suffix |
| PageTables.ContactTitle | main.js:244-251 | `contact.html` gets `Contact` followed by the suffix |
| PageTables.RootIsTitledHome | main.js:239-251 | the site root `/` is titled `Accueil` |
| PageTables.LoadPageContent | main.js:255-272 | the table's own outline comes back exactly for `solutions`, `technologies` and `realisations`, and none (`null`) for any other key |
| PageTables.FileNamesFindNoContent | main.js:255-271 | no page file name of the title table finds content |
| PageTables.ObjectLookup | main.js:250 | indexing an object literal finds the key's own entry exactly for table keys, the inherited member for any other `Object.prototype` name, and `undefined` for everything else |
| PageTables.PageNameAsWritten | main.js:250 | as written, listed pages get their title, other `Object.prototype` names get the inherited member, and all remaining names get the site name |
| PageTables.LoadPageContentAsWritten | main.js:271 | as written, a table key gives its own outline, any other `Object.prototype` name gives the inherited member, and `undefined` (so `null`) comes back exactly for keys that are neither |
| PageTables.InheritedKeyEscapesTitleFallback | main.js:250-251 | on `/toString`, the script's page name is the inherited `toString`; the intended lookup gives the site name |
| PageTables.InheritedKeyEscapesNullFallback | main.js:271 | `loadPageContent("constructor")` yields the inherited constructor; the intended lookup gives none |
| PageTables.AsWrittenAgreesOffPrototype | main.js:250-271 | off the prototype names, the lookups as written and as intended agree |
| StatCounter.Increment | main.js:151 | the increment is the ceiling of target/50: 50·(r−1) < target ≤ 50·r |
| StatCounter.PositiveTargetPositiveIncrement | main.js:151 | a positive target gives an increment of at least 1 |
| StatCounter.Step | main.js:153-155 | a tick at or above the target changes nothing; below it, the value advances by exactly ceil(target/50), or becomes the target when that step would overshoot |
| StatCounter.Ticks | main.js:148-158 | the tick chain is empty exactly when the value is already at or above the target; otherwise every value lies above the start and within the target, and the last is exactly the target |
| StatCounter.TicksIncrease | main.js:151-155 | the values shown only ever increase: every tick shows more than every earlier one |
| StatCounter.NonPositiveTargetShowsNothing | main.js:144-153 | from the reset `0`, a target of zero or less shows nothing |
| StatCounter.TicksFromZero | main.js:143-158 | from the reset `0` a positive target takes ceil(target/increment) ticks, at most 50, and tick k shows min((k+1)·increment, target) |
| StatCounter.CountedStep | main.js:151-156 | one tick from a state reached by k ticks is the (k+1)-fold increment clamped to the target, still within 50 ticks, and continues the same chain |
| StatCounter.CountUp | main.js:143-158 | from `0`, the counter ends exactly on a positive target (or stays 0) in at most 50 ticks; tick k shows min((k+1)·increment, target); it shows exactly the tick chain |
| StatCounter.FrameBound | main.js:151 | when the target is at most 50 increments, any number of increments that still falls short of it is below 50 |
| StatCounter.OneHundredTwenty | main.js:151-155 | a statistic of 120 shows 3, 6, …, 120: exactly forty ticks, the last one on 120 |
| StatCounter.TickCountExact | main.js:151-155 | any n with (n−1)·increment < target ≤ n·increment is the exact number of ticks from 0 |
| StatCounter.UnclampedTick | main.js:151-155 | a tick whose multiple (k+1)·increment is still within the target shows exactly that multiple, with no clamping |
| Forms.CheckField | main.js:177-183 | a required field gets the error border exactly when its value is blank, and the neutral border otherwise; other fields are untouched; values never change |
| Forms.AllRequiredFilled | main.js:174-184 | `isValid` holds exactly when no required field is blank |
| Forms.Validate | main.js:174-184 | each field is checked on its own value alone, and validity is the conjunction over required fields |
| Forms.Reset | main.js:199 | `form.reset()` puts every value back to its default and keeps the borders |
| Forms.Submit | main.js:170-205 | borders follow validation; an invalid submit leaves the button and the scheduled completions alone; a valid one disables the button, shows the spinner and schedules the restore of the current label |
| Forms.Complete | main.js:195-202 | the oldest pending completion fires first: it resets the fields, re-enables the button with the label its submit saved, and leaves the later completions queued in order |
| Forms.SubmitCycle | main.js:186-205 | from idle, a valid submit goes busy and its completion returns to idle with the same button and default values; an invalid submit stays idle |
| Forms.BlankFieldBlocksSubmit | main.js:174-205 | with required fields `""` and `"x"`, the first is flagged, the second is neutral and the button is unchanged |
| Forms.OverlappingSubmitsKeepSpinner | main.js:188-202 | a second valid submit while one is in flight saves the spinner; after both completions the enabled button still shows it |
| Forms.ValidationIgnoresBorders | main.js:177-184 | validity depends on values and `required` flags only |
| Navigation.CloseMenu | main.js:68-69 | closing clears the menu flag and shows the hamburger, touching nothing else |
| Navigation.ToggleMenu | main.js:25-30 | the toggle flips the menu flag and the icon follows the new flag |
| Navigation.NavLinkClick | main.js:34-39 | at width ≤ 992, a menu link closes the menu; above 992, nothing changes |
| Navigation.DocumentClick | main.js:63-71 | a click outside both the menu and the toggle closes the menu; any other click changes nothing |
| Navigation.DropdownClick | main.js:47-59 | at width ≤ 992, the link is not followed, the clicked dropdown flips and all others close; above 992, the link is followed and nothing changes |
| Navigation.MobileDropdownClickExclusive | main.js:50-57 | after a mobile dropdown click, at most one dropdown is open |
| Navigation.Scroll | main.js:80-86 | the header is marked scrolled exactly when the offset exceeds 100 |
| Navigation.ScrollForgetsHistory | main.js:80-86 | the header flag depends on the latest offset only |
| Navigation.Initial | main.js:20-29 | the state the handlers start from: menu closed with the hamburger and no dropdown open (the page markup sets this, not the script) |
| Navigation.Apply | main.js:25-86 | each event reaches its own handler: a toggle click is `ToggleMenu`, a menu-link click `NavLinkClick`, a document click `DocumentClick`, a click on an existing dropdown `DropdownClick`; only a scroll changes the header flag and it changes nothing else; a click on a dropdown that does not exist changes nothing |
| Navigation.Run | main.js:20-86 | over any sequence of events the number of dropdowns never changes, and without a scroll the header flag stays |
| Navigation.RunSnoc | main.js:20-86 | events are handled in order: running a sequence and then one more event is that event's handler applied to the state the sequence left |
| Navigation.ApplyKeepsConsistent | main.js:25-86 | every handler keeps the icon matched to the menu and at most one dropdown open |
| Navigation.RunKeepsConsistent | main.js:20-86 | after any sequence of events, the icon matches the menu and at most one dropdown is open |
| Navigation.LoadedPageStaysConsistent | main.js:20-86 | from the page as loaded, after any events, the icon matches the menu and at most one dropdown is open |
| Navigation.WideViewportLinksChangeNothing | main.js:34-59 | above 992, menu-link and dropdown clicks change no flag |
| Navigation.ToggleClickAsWritten | main.js:25-69 | as written, one click on the toggle runs the toggle listener and then the document listener; on the icon it always ends with the menu closed and the hamburger shown, and on the toggle's own box it flips the menu |
| Navigation.ToggleClick | main.js:25-29 | as intended, one click on the toggle flips the menu, the icon follows, and the dropdowns and header stay |
| Navigation.ToggleIconClickNeverOpens | main.js:25-69 | the as-written icon click is the toggle event followed by a document click outside both elements, it never leaves the menu open, and on a closed menu the intended click opens it |
| Navigation.ToggleClickIsToggleEvent | main.js:25-29 | the intended click is exactly the toggle event the rest of the model uses |

## Findings

| source | as written | input that shows it | evidently intended | confidence | as-written member | corrected member |
|---|---|---|---|---|---|---|
| main.js:250 | `pageTitles[page] \|\| "SpaceCongo"` also finds the members inherited from `Object.prototype`. They are truthy, so the fallback is skipped. | URL path `/toString`: the page name is the built-in `toString` function, whose text ends up in the document title | every page outside the table is titled `SpaceCongo` | medium, not executed | PageTables.PageNameAsWritten (shown by PageTables.InheritedKeyEscapesTitleFallback) | PageTables.PageName |
| main.js:271 | `pageContent[pageId] \|\| null` also finds the inherited members | `loadPageContent("constructor")` returns the `Object` constructor, not `null` | `null` for every key other than the three outlines | medium, not executed | PageTables.LoadPageContentAsWritten (shown by PageTables.InheritedKeyEscapesNullFallback) | PageTables.LoadPageContent |
| main.js:25-69 | The toggle's click listener rewrites the toggle's `innerHTML`, which removes the clicked icon from the document. The same click then bubbles to the document listener, where neither `mainNav.contains(event.target)` nor `menuToggle.contains(event.target)` holds for the removed icon, so the menu is closed again. | a click on the hamburger icon of a closed menu: the menu opens and is closed in the same click | a click on the toggle flips the menu and the document listener leaves it alone | medium, not executed | Navigation.ToggleClickAsWritten (shown by Navigation.ToggleIconClickNeverOpens) | Navigation.ToggleClick |

## Left out

- Event-listener registration, element queries and the existence guards on the toggle, menu and header (main.js:24, 79) are left out. The model assumes the elements exist.
- Forms.Submit: a valid form without a `button[type="submit"]` is left out. There the script sets the borders and then throws at `submitBtn.innerHTML` (main.js:188-189), so the form is neither busy nor reset. The model's `Form` always has a submit button.
- Icon and label markup is modelled as enumerations. Inline style strings and border colour values are modelled as the `Border` enumeration.
- The in-page anchor handler (main.js:90-109) is left out. It only calls host scroll and history APIs.
- The reveal animation (main.js:113-137) is left out. So are the intersection-observer options and the `animationstart` trigger of the counter (main.js:146, 160). These are browser visibility semantics.
- `setTimeout` delays (main.js:156, 195) are left out. Each timer is a discrete step instead.
- `alert`, `console.log`, `initDemoButtons`, `initPartners` and `navigateTo` (main.js:16, 196-198, 204, 275-319) are left out. They only produce dialogs, logging, markup and navigation.
- `parseInt` of the statistic text (main.js:149-150) is left out. The target is taken as an integer, and writing a number to the text and parsing it back is taken as the identity. The model does not keep a non-numeric tail such as `120+`, which the script drops from the text.
- Overlapping counter chains, from `animationstart` firing more than once, are left out.
- One physical click can reach several handlers: a dropdown trigger inside `.nav-menu` is also a menu link, and every click also reaches the document listener. The event model gives each handler an event of its own, and `Run` composes them in whatever order the markup dispatches them. The one combination the script itself decides, a click on the toggle followed by the document listener, is modelled by `Navigation.ToggleClickAsWritten` and is the main.js:25-69 Finding. The model assumes no stylesheet sets `pointer-events: none` on the icon, which would make the toggle itself the click target.
- Forms.Submit: models the submit handler once it runs. A browser's own constraint validation usually blocks a form with an empty `required` field before the `submit` event fires, unless the form has `novalidate`. The handler's blank-field branch (main.js:174-184) then matters mainly for whitespace-only values.
- Whether a click target lies inside the menu or the toggle (`contains`, main.js:65-66) is an input of `DocumentClicked`.
- Fractional `scrollY` values are left out. The offset is an integer.
- A navigation link without an `href` attribute is left out. `getAttribute` would return `null`, and the script would then throw at `replace`.
- JsStrings.ReplaceFirst: JavaScript expands `$&`, `$$`, `` $` ``, `$'` and `$n` in a string replacement, and the model does not. Its `requires` therefore keeps `$` out of the replacement. The script's only call passes the empty string (main.js:225).
- JsStrings.Trim: the contract does not state that the result is the contiguous middle slice of the input. It states only the properties validation needs: whitespace-free ends, and emptiness exactly for blank input through TrimEmptyIffBlank.
- JavaScript strings are UTF-16 code units, and Dafny characters are Unicode scalar values. Every operation here looks at single characters against ASCII or BMP values, so the results agree.
