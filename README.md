# Portfolio page: a verified model of its client-side rules

The site is a single static page. It has a hero section with a typing animation and a fixed project navigation bar. Below it sit project sections generated from a data table; each one has a screenshot carousel and a shared full-screen lightbox. Most of the JavaScript is DOM and canvas glue. This project models the parts that follow exact rules, and proves what those rules guarantee:

- `HtmlEscape` (html_escape.dfy): `escapeHtml`. It replaces `& < > " '` with their entities in one pass. The model proves that the output holds no markup character, that its length grows exactly when a special character is present, that it distributes over concatenation, and that decoding the entities gives the input back.
- `ProjectSection` (project_section.dfy): the carousel part of `createProjectSection`. There is one image and one dot per screenshot, and only position 0 is active. Dot `i` carries `data-index` `i` and the label "Go to slide i+1", and no two labels are equal. The `<code>` element holds the escaped snippet.
- `Carousel` (carousel.dfy): the `Carousel` class. It holds the current index and two `array<bool>` "active" vectors, one for screenshots and one for dots. `showSlide` and everything that calls it are methods: the buttons, a dot click, the arrow keys and the swipe with its 50-pixel threshold. The class invariant says that, when the carousel has screenshots, the index is a valid slide and exactly the screenshot and the dot at that index are active. With no screenshots the index is 0 or -1 (showSlide's wrap turns a negative index into length − 1) and nothing is active. The file also holds the `Lightbox` class: open/close state, image src/alt, the body's `overflow` style and a single creation.
- `Typewriter` (typewriter.dfy): `typeWelcome` and `typeIntro` as tick methods on a class. `Animate` is the chain of timeouts written as a loop. For an intro text whose every `<` is later closed by a `>`, the HTML shown is always the prefix typed so far. A tag is appended whole, the animation ends with both texts in full, and the page's own intro text is proved to qualify. A lemma covers the edge case that the precondition excludes: on an unclosed `<`, `indexOf` returns -1 and the index resets to 0.
- `Navigation` (navigation.dfy): these rules are in js/main.js.
  - The bar (a `NavBar` object) becomes visible once the scroll position passes the hero's height minus 100.
  - Only `#` links are intercepted. They scroll to the target's offsetTop, less the bar's height except for `#hero`.
  - In the observer callback, the links whose href is `#` + id become active and all others inactive. With distinct hrefs, that leaves at most one active link.
- `Common` (common.dfy): `Option`, and counting the set flags of an active vector.

Browser events become method calls. Timer delays, pixel geometry and the DOM itself are parameters or abstract state.

## Model

| member | source | states |
|---|---|---|
| `HtmlEscape.Entity` | js/projects-data.js:344-350 | each of the five special characters maps to an entity that starts with `&`, ends with `;` and contains no markup character |
| `HtmlEscape.Replacement` | js/projects-data.js:351 | the replacement of a character never contains `<`, `>`, `"` or `'`, and it is a single character exactly when the input character is not special (which entity each special character becomes is stated by `HtmlEscape.EscapeOneChar`) |
| `HtmlEscape.EscapeHtml` | js/projects-data.js:343-352 | the output contains no `<`, `>`, `"` or `'`; it is at least as long as the input, and exactly as long iff the input has none of the five special characters |
| `HtmlEscape.DecodeReplacement` | js/projects-data.js:344-351 | decoding one replacement followed by any text yields the original character, because the entities are distinct and all start with `&` |
| `HtmlEscape.DecodeEscape` | js/projects-data.js:343-352 | decoding the five entities in the escaped output recovers the input exactly |
| `HtmlEscape.EscapeInjective` | js/projects-data.js:343-352 | two texts with the same escaped form are equal |
| `HtmlEscape.EscapeConcat` | js/projects-data.js:351 | escaping distributes over concatenation, so each character is replaced independently, left to right |
| `HtmlEscape.EscapePlain` | js/projects-data.js:351 | text without special characters passes through unchanged, in the same order |
| `HtmlEscape.EscapeOneChar` | js/projects-data.js:344-351 | a single character escapes to its table entry if special, to itself otherwise |
| `HtmlEscape.SinglePass` | js/projects-data.js:351 | `<` becomes `&lt;` (not `&amp;lt;`), and the entity text `&lt;` is escaped once, on its `&` only |
| `ProjectSection.Decimal` | js/projects-data.js:386 | the printed index is a non-empty string of decimal digits, with no leading zero for a positive number |
| `ProjectSection.ParseDecimalOfDecimal` | js/projects-data.js:386 | reading the printed number back gives the number |
| `ProjectSection.DotLabel` | js/projects-data.js:386 | the label is "Go to slide " followed by digits without a leading zero that read back as the dot's position plus one |
| `ProjectSection.ParsePositive` | js/projects-data.js:386 | a digit string without a leading zero reads as a positive number |
| `ProjectSection.DecimalUnique` | js/projects-data.js:386 | a digit string without a leading zero is the printed form of the number it reads as, so printing is the only such spelling |
| `ProjectSection.DotLabelDetermined` | js/projects-data.js:386 | any text meeting DotLabel's contract is that label, so the contract fixes the exact string the template builds |
| `ProjectSection.DotLabelsDistinct` | js/projects-data.js:386 | dots at different positions carry different "Go to slide n" labels |
| `ProjectSection.SlideImages` | js/projects-data.js:373-380 | one image per screenshot, in order, with that screenshot's src and alt |
| `ProjectSection.Dots` | js/projects-data.js:385-387 | one dot per screenshot; dot i has data-index i and label "Go to slide i+1" |
| `ProjectSection.InitialSlideActive` | js/projects-data.js:373-388 | exactly the image and the dot at index 0 start active, the same flags showSlide(0) sets; a non-empty list has exactly one of each |
| `ProjectSection.CodeElement` | js/projects-data.js:431 | the element opens with `<code>` and closes with `</code>`; its content is the escaped snippet, holds no markup character and decodes back to the snippet |
| `Common.Count` | js/carousel.js:24-31 | the number of active elements is at most the list's length, and is zero iff no element is active |
| `Common.OneHot` | js/carousel.js:24-31 | the flags showSlide writes: element i is active iff i is the current index |
| `Common.OneHotCount` | js/carousel.js:24-31 | exactly one element is active when the index is in range, none otherwise |
| `Carousel.WrapIndex` | js/carousel.js:18-19 | an in-range index is kept; any index at or past the end becomes 0 and any negative index becomes length − 1, so with at least one slide the result is a valid slide; with no slides the result is 0, or -1 for a negative index |
| `Carousel.WrapEnds` | js/carousel.js:18-19 | next on the last slide gives slide 0, previous on slide 0 gives the last slide, and every index past the end or before the start goes to slide 0 or to the last slide respectively |
| `Carousel.NextPrevInverse` | js/carousel.js:38-45 | previous after next, and next after previous, return to the original slide |
| `Carousel.SwipeStep` | js/carousel.js:87-100 | no move iff the horizontal travel is at most 50 px; next iff start − end > 50; previous iff start − end < −50 |
| `Carousel.SwipeAntisymmetric` | js/carousel.js:87-100 | reversing a swipe reverses its effect |
| `Carousel.Carousel.constructor` | js/carousel.js:8-13 | the arrays start as the markup sets them, then showSlide(0) (line 111) leaves index 0 current and the invariant established |
| `Carousel.Carousel.ShowSlide` | js/carousel.js:16-32 | the index becomes the wrapped argument and lies in bounds; exactly the screenshot and the dot at it are active, all others inactive |
| `Carousel.Carousel.Prev` | js/carousel.js:35-40 | the index becomes the wrapped predecessor and the invariant is kept |
| `Carousel.Carousel.Next` | js/carousel.js:42-47 | the index becomes the wrapped successor and the invariant is kept |
| `Carousel.Carousel.ClickDot` | js/carousel.js:50-54 | clicking dot i makes slide i current |
| `Carousel.Carousel.KeyDown` | js/carousel.js:57-64 | ArrowLeft steps back, ArrowRight steps forward, any other key changes nothing |
| `Carousel.Carousel.TouchStart` | js/carousel.js:70-76 | the start position is recorded |
| `Carousel.Carousel.TouchEnd` | js/carousel.js:78-85 | the end position is recorded and the swipe decision applied |
| `Carousel.Carousel.HandleSwipe` | js/carousel.js:87-100 | the index moves by the swipe step; a short swipe changes nothing at all |
| `Carousel.Carousel.ClickScreenshot` | js/carousel.js:103-108 | the lightbox opens on the clicked screenshot's src and alt |
| `Carousel.Lightbox.constructor` | js/carousel.js:118-120 | before the first open there is no overlay and the body scrolls |
| `Carousel.Lightbox.Open` | js/carousel.js:116-156 | the overlay is built only if it does not exist yet (at most one creation ever); afterwards it is active with the given src/alt and body scrolling locked |
| `Carousel.Lightbox.Close` | js/carousel.js:158-164 | an existing overlay becomes inactive and scrolling is restored; without an overlay nothing changes |
| `Carousel.Lightbox.KeyDown` | js/carousel.js:143-147 | Escape closes the overlay only when it is active; otherwise the state is unchanged |
| `Carousel.Lightbox.Click` | js/carousel.js:133-140 | a click on the backdrop or the close button closes the overlay; a click anywhere else inside the content box (the box itself or the picture) changes nothing |
| `Typewriter.IndexOf` | js/main.js:82 | the first position at or after the start holding the character, or -1 exactly when there is none |
| `Typewriter.Substring` | js/main.js:83 | substring between two in-range positions in order is the slice between them; both ends past the text give the empty string; the result is never longer than the text |
| `Typewriter.SubstringSwapped` | js/main.js:83 | with the ends the wrong way round they are swapped, and a negative end counts as 0, so the result is the whole text before the start |
| `Typewriter.IntroStep` | js/main.js:77-89 | a tick on a plain character advances by exactly one; a tick either moves forward and appends exactly the text it steps over, or goes back to index 0 and appends the whole text before its position; it never moves past the end |
| `Typewriter.IntroStepAdvances` | js/main.js:77-89 | on a plain character or a closed tag, a tick moves strictly forward and appends exactly the text stepped over; a plain character is appended alone and advances the index by one; a `<` is appended together with everything through the first `>` after it; and a tick that starts outside a tag also ends outside one |
| `Typewriter.IntroStepUnclosedTag` | js/main.js:81-85 | on a `<` with no later `>`, the tick appends the whole text before it and resets the index to 0, which breaks the prefix invariant |
| `Typewriter.TagFreeClosed` | js/main.js:49-50 | a text without `<` closes all its tags |
| `Typewriter.TagsClosedConcat` | js/main.js:49-50 | two texts that close their tags still do when joined |
| `Typewriter.OneTagClosed` | js/main.js:49-50 | a single tag ending in `>` is closed |
| `Typewriter.JoinTagsClosed` | js/main.js:49-50 | joining pieces that close their tags gives a text that closes its tags |
| `Typewriter.IntroTextTagsClosed` | js/main.js:49-50 | the page's introduction closes every tag it opens |
| `Typewriter.Typewriter.constructor` | js/main.js:48-57 | nothing is typed, both indices are 0, no cursor is shown and the accent line is hidden |
| `Typewriter.Typewriter.OnLoad` | js/main.js:97-100 | the welcome element gets its typing cursor |
| `Typewriter.Typewriter.TypeWelcome` | js/main.js:59-72 | while characters remain, appends exactly the next one and advances the index by 1; afterwards removes the cursor, reveals the accent line, adds the intro cursor and runs the first typeIntro tick |
| `Typewriter.Typewriter.TypeIntro` | js/main.js:76-94 | appends the step's chunk and moves the index as the tick rule says, and shows the HTML; at the end it changes nothing |
| `Typewriter.Typewriter.Animate` | js/main.js:59-94 | with every tag closed: the welcome word is complete after as many ticks as it has characters, and the next tick hands over to the intro, so the welcome phase takes length + 1 ticks; the shown HTML stays a prefix of the intro that never stops inside a tag; at the end both indices are at the ends of their texts, the invariant holds and the HTML equals the whole intro |
| `Typewriter.AnimatePage` | js/main.js:47-100 | the page's own animation ends showing "Welcome" and the full introduction |
| `Navigation.NavBar.constructor` | js/main.js:109 | the hero height is read once, when the page's content has loaded, and the bar keeps its initial class |
| `Navigation.NavBar.OnScroll` | js/main.js:112-120 | after a scroll event the bar has the `visible` class exactly when the scroll position exceeds the hero height minus 100; nothing else changes |
| `Navigation.NavVisibleMonotone` | js/main.js:115-119 | scrolling further down never hides a visible bar, and scrolling up never shows a hidden one |
| `Navigation.OnLinkClick` | js/main.js:125-141 | only hrefs starting with `#` are intercepted; an existing target is scrolled to its offsetTop for `#hero`, and so that its top sits just below the bar otherwise |
| `Navigation.LastIntersecting` | js/main.js:158-171 | none iff no entry intersects; otherwise the id of an intersecting entry after which no entry intersects |
| `Navigation.LinkStates` | js/main.js:163-168 | a link is active exactly when its href equals `#` + section id |
| `Navigation.LinkStatesCount` | js/main.js:163-168 | with distinct hrefs, exactly one link is active if one names the section, and none otherwise |
| `Navigation.NavHighlighter.constructor` | js/main.js:149-151 | the links and their initial classes are as in the markup |
| `Navigation.NavHighlighter.OnIntersection` | js/main.js:158-171 | after a batch of entries, the active links are exactly those matching the last intersecting section; a batch with no intersecting entry changes nothing |

## Left out

- Matrix rain (js/main.js:1-45): canvas drawing, random glyphs, fractional drop positions and an interval timer. It is all floating point, randomness and I/O.
- Timer delays (js/main.js:63, 67, 92, 99; js/projects-data.js:506, 511) are not modelled. One timer tick is one method call, and the timeout chain is the loop of `Typewriter.Typewriter.Animate`. The 300 ms callback of `typeWelcome` runs inside the hand-over tick.
- IntersectionObserver thresholds and root margins (js/main.js:153-156, 173-174) are browser geometry. Only the callback's effect on the links is modelled; which entries arrive in which batch is a parameter.
- `highlightSyntax` (js/projects-data.js:466-489) is regex-driven rewriting whose only call is commented out.
- The `projectsData` literal (js/projects-data.js:2-340) is display data. Its code snippets are page text, not logic.
- The rest of the `createProjectSection` template is not modelled: header, description, tech stack, features and links are plain interpolation. So is the insertion of sections into the document (js/projects-data.js:492-513).
- DOM construction and listener wiring (js/carousel.js:4-11, 70-85, 121-147) become constructors and method calls. `e.stopPropagation()` on the carousel buttons has no counterpart, because no other click handler in the model could receive the event.
- Each carousel has one dot per screenshot: the section markup builds both lists from the same screenshot list. The carousel's constructor takes that list.
- `Carousel.Carousel.ClickScreenshot` passes the image's src as written. The browser would resolve it to an absolute URL, which is not modelled.
- Scroll positions, offsets and touch coordinates are whole pixels. The browser may report fractions.
- `window.scrollTo` and its smooth behaviour, and the resize handler, are browser effects. `Navigation.OnLinkClick` returns the target position instead. A selector lookup that finds nothing (an unknown id, or a bare `#`, for which `querySelector` would throw) gives no scroll.
- The page's initial markup is not part of this model. The model assumes empty typing targets, no cursors, a hidden accent line, no active nav link classes beyond those passed in, and an unset body `overflow`.
- `Typewriter.Typewriter.Animate`: ticks are counted per Unicode scalar value, not per UTF-16 code unit. JavaScript's `length`, `charAt`, `indexOf` and `substring` index UTF-16 code units, while a Dafny `string` is a sequence of Unicode scalar values. A character outside the Basic Multilingual Plane therefore takes two ticks in the source, with a lone surrogate shown after the first, and one tick in the model, so the tick counts differ for such texts. The page's own texts use no such character (the only non-ASCII one is U+2014), so `Typewriter.AnimatePage` is unaffected. `escapeHtml` is unaffected too, since none of its five special characters is a surrogate.
- `ProjectSection.SlideImages`: each image's src and alt are assumed to reach the document unchanged, and so does what `Carousel.Carousel.ClickScreenshot` passes to the lightbox. The template (js/projects-data.js:375-376) puts them into attribute text without escaping. A `"` in them would end the attribute early (an alt of `a"b` becomes `a`), and an entity would be decoded (`A &amp; B` becomes `A & B`). The site's screenshot entries contain neither character, so the page is unaffected.
- `Navigation.NavBar` and `Navigation.OnLinkClick` assume that `#project-nav` and `#hero` both exist. When either is missing, the source returns early (js/main.js:107) and installs neither the scroll listener nor the link-click handlers. The model has no state for that case.
- Autoplay is not modelled: the carousel code has no autoplay timer and no hover or visibility pause, so the model follows the code.
