# Portfolio page state: image carousels, scroll flag, theme flag

This project models the interactive state of a single-page portfolio site
(the `Portfolio` component of `src/App.jsx`). The page owns three state cells:

- `activeImageIndices`, a map from a project's position in the project list to
  the image currently shown in that project's carousel. A project with no entry
  shows image 0. The right arrow advances the index modulo the project's image
  count, the left arrow steps it back modulo the same count, and an indicator
  dot sets it directly. Each update copies the map and overwrites one key.
- `isScrolled`, recomputed on every scroll event as `scrollY > 20`.
- `isDarkMode`, initially dark, flipped by the theme button. The navigation
  bar's background classes are chosen from both flags.

Files:

- `carousel.dfy`, module `Carousel`: the map updaters as pure functions
  (`Next`, `Prev`, `Jump`, the default-0 read `ActiveIndex`), JavaScript's
  truncating `%` (`JsRem`), and lemmas: wrap-around in both directions, the
  left arrow undoing the right arrow and back, `n` right-arrow clicks returning
  to the start, isolation of the other projects, the carousel invariant
  (every recorded index names one of that project's images) kept by every
  update, and which image is drawn opaque (`IsShown`).
- `flags.dfy`, module `PageFlags`: the scroll threshold, the theme toggle and
  the navigation bar selection.
- `app.dfy`, module `App`: class `Portfolio` with the three state cells as
  fields and the event handlers as methods that apply the updaters; `Valid()`
  is the carousel invariant. Four client methods check small click, scroll and
  theme scenarios (4 images: next, next, prev gives 1; 3 images: prev from the start
  gives 2; scrolling to 50 and back to 10; two theme toggles).

JavaScript `%` is the remainder of truncating division. `JsRem` models it that
way, so a negative stored index would behave as it does in the browser; with
the non-negative indices the page actually stores it agrees with Dafny's `%`
(`JsRemOfNonNegative`).

## Model

| member | source | states |
|---|---|---|
| Carousel.JsRem | src/App.jsx:83 | JavaScript `%` with a positive divisor: the result lies strictly between `-n` and `n`, has the sign of the dividend, and differs from it by a multiple of `n` |
| Carousel.JsRemOfNonNegative | src/App.jsx:90 | for a non-negative dividend JavaScript's `%` equals the Euclidean remainder, so the arrow arithmetic stays in `[0, n)` |
| Carousel.ActiveIndex | src/App.jsx:193 | a recorded project reads its stored index; a project with no entry reads 0 |
| Carousel.Next | src/App.jsx:80-85 | `nextImage` adds only key `p`, leaves every other entry unchanged, and from any index >= -1 stores a value in `[0, totalImages)` |
| Carousel.Prev | src/App.jsx:87-92 | `prevImage` adds only key `p`, leaves every other entry unchanged, and from any index >= 1 - totalImages stores a value in `[0, totalImages)` |
| Carousel.Jump | src/App.jsx:252 | an indicator dot adds only key `p`, leaves every other entry unchanged, and reading `p` back yields exactly `imgIndex` |
| Carousel.NextIndex | src/App.jsx:83 | the right arrow's new index lies in `[0, n)` from any index >= -1; from a valid index it is the next image, and image 0 after the last one |
| Carousel.PrevIndex | src/App.jsx:90 | the left arrow's new index lies in `[0, n)` from any index >= 1 - n; from a valid index it is the previous image, and the last image from image 0 |
| Carousel.PrevNextInverse | src/App.jsx:80-92 | for `i` in `[0, n)`, `prev(next(i)) = i` and `next(prev(i)) = i` |
| Carousel.PrevFromUnsetWraps | src/App.jsx:90 | a project with no entry (read as 0) shows image `n - 1` after one left-arrow click |
| Carousel.PrevNextInverseOnMap | src/App.jsx:80-92 | on the whole map, next then prev (and prev then next) leaves every project's shown image as it was, and leaves the map itself unchanged when the project already had an entry |
| Carousel.NextTimesIndex | src/App.jsx:80-85 | after `k` right-arrow clicks a project that started at valid index `i` shows `(i + k) mod n`, and no other project's index moved |
| Carousel.NextCycle | src/App.jsx:80-85 | `n` right-arrow clicks on a project with `n` images return every project to the image it showed before, and leave the map unchanged when the project already had an entry |
| Carousel.NextTimesKeys | src/App.jsx:81-84 | repeated right-arrow clicks add at most the clicked project's key to the map |
| Carousel.UpdatesKeepInRange | src/App.jsx:80-92 | the arrows, called with the project's own image count, and a dot with an index in `[0, images.length)` (line 252) keep every recorded index inside its project's images |
| Carousel.IsShown | src/App.jsx:206 | an image is drawn opaque exactly when it is the project's stored index, or image 0 when the project has no entry |
| Carousel.ShownImageExists | src/App.jsx:202-207 | under the carousel invariant one of the project's own images is the opaque one |
| PageFlags.ScrolledAt | src/App.jsx:11 | the scroll handler's flag is false exactly for offsets up to and including 20 |
| PageFlags.ScrolledChangesOnlyAcrossThreshold | src/App.jsx:11 | the scrolled flag is monotone in the offset and differs between two offsets exactly when one is at most 20 and the other above 20 |
| PageFlags.ScrolledBoundary | src/App.jsx:11 | the comparison is strict: 20 is not scrolled, 20.5 and 21 are |
| PageFlags.Toggle | src/App.jsx:17-19 | the theme button always changes the theme |
| PageFlags.ToggleTwice | src/App.jsx:17-19 | two clicks of the theme button restore the theme |
| PageFlags.NavClasses | src/App.jsx:98-100 | the navigation bar is `bg-transparent` exactly when the page is not scrolled, in both themes; once scrolled the dark and light themes give their own solid backgrounds |
| PageFlags.NavClassesAfterToggleTwice | src/App.jsx:98-100 | two theme toggles leave the navigation bar's classes as they were |
| App.Portfolio.constructor | src/App.jsx:5-7 | the first render has no recorded index, is not scrolled, is dark, and satisfies the carousel invariant |
| App.Portfolio.CurrentImageIndex | src/App.jsx:193 | the shown image is the stored index or 0, and under the invariant it is one of the project's images |
| App.Portfolio.NextImage | src/App.jsx:80-85 | the right arrow replaces the map by `Next` of the old map, touches no other state, and keeps the invariant when given the project's own image count |
| App.Portfolio.PrevImage | src/App.jsx:87-92 | the left arrow replaces the map by `Prev` of the old map, touches no other state, and keeps the invariant when given the project's own image count |
| App.Portfolio.SelectImage | src/App.jsx:252 | an indicator dot replaces the map by `Jump` of the old map, touches no other state, and keeps the invariant for an index in range |
| App.Portfolio.HandleScroll | src/App.jsx:10-12 | the scroll handler sets only the scrolled flag, to whether the offset is above 20 |
| App.Portfolio.ToggleTheme | src/App.jsx:17-19 | the theme button flips only the theme flag |
| App.Portfolio.CurrentNavClasses | src/App.jsx:98-100 | the navigation bar's classes for the current flags, transparent exactly when not scrolled |

## Left out

- Registering and removing the scroll listener (lines 13-14): browser event plumbing; `HandleScroll` is the listener's body, called once per event.
- React's asynchronous state scheduling and batching: each setter is applied synchronously in event order, so `toggleTheme` always reads the current flag rather than a possibly stale closure value.
- `totalImages = 0`: the arrows are rendered only when a project has more than one image (line 224), so `Next`, `Prev` and the arrow methods require a positive count.
- Window offsets are modelled as `real`; `window.scrollY` is a double, and floating-point rounding is not modelled.
- JavaScript object keys are strings; the page always indexes the map with the same numeric project position, so keys are modelled as `int`.
- The placeholder image substituted on a load error (lines 213-215): a DOM and network concern.
- The JSX markup and every Tailwind class string other than the navigation bar's background (lines 94-96, 102-107 and the markup from line 109): presentation.
- The static project, skill and education data and the icons: build-time content; only each project's image count enters the model, as the ghost constant `imageCounts`.
