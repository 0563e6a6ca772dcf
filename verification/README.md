# Portfolio page behaviours, modelled in Dafny

`script.js` wires a static portfolio page at load time: in-page anchor
scrolling, a contact-form stub with client-side validation, a navbar that
highlights the section being read, one-time entrance animations for cards, a
"scroll to top" button, and a profile-picture picker whose choice is kept in
local storage and shown again on the next visit.

This project replaces the DOM by plain state and models the decisions and
state updates underneath:

- `EmailShape` (email_shape.dfy): the regular expression
  `^[^\s@]+@[^\s@]+\.[^\s@]+$` as a reference predicate (`RegexMatches`), a
  deterministic scan (`IsValidEmail`) proved equal to it, and what an accepted
  address looks like (`local@domain`, one `@`, an inner dot in the domain).
- `Contact` (contact.dfy): the submit handler; the form is a class whose
  fields only a successful submission clears.
- `NavHighlight` (nav_highlight.dfy): the last-wins fold over the landmarks
  (`Current`, run by the loop `CurrentSection`) and the link-marking loop
  (`NavBar.MarkLinks`, specified by `Marked`), including a link without an
  href, whose `.slice` throws part-way through the loop.
- `Reveal` (reveal.dfy): the intersection-observer callback over a class
  holding the observed and the animated elements.
- `ScrollTop` (scroll_top.dfy): the strict `> 300` threshold and the click's
  request to scroll to offset 0.
- `Anchors` (anchors.dfy): the bare-`#` rule of the anchor click handler.
- `ProfileImage` (profile_image.dfy): choosing a file input, the file-type
  guard, showing a data URL, the overwrite of the one storage key (with a
  failing write swallowed) and the restore on load, with the store/reload
  round trip.
- `Optional` (optional.dfy): `Option`, standing for JavaScript's `null` and for
  an element a page does not have.

Scroll offsets are `real` (`pageYOffset` may be fractional); section tops are
`int` (`offsetTop` is integral). `current` is `Option<string>`: it starts as
`Some("")`, and a reached landmark without an `id` sets it to `None` (null).

The code decides a few things differently from how the page is usually
described:

- A link is active iff its href minus its first character equals `current`.
  When every nav link has an href, no link is active when that value matches
  none of them or is null, and several links are active when their fragments
  repeat (`AtMostOneActive` needs distinct fragments). A bare `#` link that the
  loop reaches is active while no section has been reached yet
  (`BareHashActiveAtTop`). A link without an href makes `.slice` throw, so the
  links after it keep their old flags, possibly stale active ones.
- Every `section` and `header` takes part in the fold, not only those with
  an `id`. A reached landmark without one makes `current` null.
- The emptiness test is JavaScript falsiness, i.e. the empty string only.
  Fields holding only white space count as filled.

## Model

| member | source | states |
|---|---|---|
| `EmailShape.RegexMatches` | script.js:56-57 | the regular expression as written: three non-empty runs of characters outside `\s` and `@`, around one `@` and one literal `.` |
| `EmailShape.IsValidEmail` | script.js:56-57 | the shape check as a scan: split at the first `@`, a non-empty local part, both parts free of white space and `@`, and an inner dot in the domain |
| `EmailShape.ValidEmailIffRegex` | script.js:56-57 | the shape check accepts a string iff the regular expression matches it, in both directions |
| `EmailShape.ValidEmailIffParts` | script.js:56-57 | for any split `L + "@" + D`, the address is accepted iff L is non-empty, L and D hold no white space and no `@`, and D has a `.` that is neither its first nor its last character |
| `EmailShape.ValidEmailHasOneAt` | script.js:56-57 | an accepted address contains exactly one `@` |
| `EmailShape.AcceptsPlainAddress` | script.js:56 | `jo@mail.com` is accepted |
| `EmailShape.RejectsDomainWithoutInnerDot` | script.js:56 | a domain with no dot, or whose dot is first or last, is refused |
| `EmailShape.RejectsEmptyLocalPart` | script.js:56 | an address starting with `@` is refused |
| `EmailShape.RejectsSpaceInLocalPart` | script.js:56 | white space in the local part is refused |
| `EmailShape.RejectsSecondAt` | script.js:56 | an address with two `@` is refused |
| `Contact.AllFilled` | script.js:50 | every field is truthy, i.e. not the empty string |
| `Contact.Decide` | script.js:49-63 | the fill-out notice iff some field is empty; otherwise the invalid-email notice iff the regular expression does not match; otherwise the thank-you notice |
| `Contact.ContactForm.constructor` | script.js:44-47 | the form holds the four field values the handler reads |
| `Contact.ContactForm.Submit` | script.js:40-66 | the notice is `Decide` of the fields; on success every field is cleared, on a refusal every field keeps its value |
| `Contact.BlankFieldsCountAsFilled` | script.js:50 | fields holding only a space pass the emptiness test, and the form is accepted |
| `Contact.MissingFieldReportedFirst` | script.js:50-57 | for any four values, an empty field gives the fill-out notice; an empty email, which the shape check would refuse, is reported as a missing field |
| `Contact.ResubmitAfterRefusal` | script.js:50-66 | a refused form, submitted again, gives the same notice; an accepted one, submitted again, is reported as missing fields |
| `NavHighlight.Reached` | script.js:80 | a landmark is reached when `pageYOffset >= offsetTop - 200` |
| `NavHighlight.Current` | script.js:76-83 | the value of `current` after the fold: `''` at first, then the id of each reached landmark in turn |
| `NavHighlight.DropFirst` | script.js:87 | `href.slice(1)`: the href without its first character, `''` for an empty href |
| `NavHighlight.Matches` | script.js:87 | a link matches when its fragment equals a non-null `current` |
| `NavHighlight.CurrentIsLastReached` | script.js:76-83 | the fold gives `''` when no landmark satisfies `offset >= top - 200`. Otherwise it gives the id, possibly null, of the last landmark in document order that does |
| `NavHighlight.CurrentSection` | script.js:76-83 | the loop reassigning `current` computes the fold `Current` |
| `NavHighlight.Marked` | script.js:85-90 | the marking loop yields one flag per link (the value of each flag is given by `MarkedAt`) |
| `NavHighlight.MarkedAt` | script.js:85-90 | a link preceded only by links with an href is active iff it has an href whose fragment equals `current`. A link after one with no href keeps its old flag |
| `NavHighlight.MarkedIgnoresOldFlags` | script.js:85-90 | when every link has an href, the new flags do not depend on the flags before the scroll |
| `NavHighlight.MarkedIdempotent` | script.js:85-90 | marking again for the same `current` changes nothing |
| `NavHighlight.NullCurrentMarksNone` | script.js:81-88 | when every nav link has an href and `current` is null, no link is active |
| `NavHighlight.AtMostOneActive` | script.js:85-90 | when every nav link has an href and the fragments are pairwise different, at most one link is active |
| `NavHighlight.BareHashActiveAtTop` | script.js:76-88 | before any landmark is reached, a link whose href is `#` is active when every link before it has an href |
| `NavHighlight.NavBar.constructor` | script.js:73 | the navbar holds the nav links found at load time, with their hrefs and active flags |
| `NavHighlight.NavBar.MarkLinks` | script.js:85-90 | the new flags are `Marked` of the old ones. The loop completes iff every link has an href |
| `NavHighlight.NavBar.OnScroll` | script.js:75-91 | one scroll event sets the flags to `Marked(hrefs, old flags, Current(landmarks, offset))`, with the landmarks' ids and tops as read during that event |
| `Reveal.Revealed` | script.js:101-106 | the targets of a batch's intersecting entries, the ones the callback animates |
| `Reveal.RevealedIff` | script.js:101-106 | an element is animated by a batch iff one of its entries in the batch is intersecting |
| `Reveal.RevealedAppend` | script.js:100-106 | two batches in a row animate what their concatenation animates |
| `Reveal.NothingIntersectingRevealsNothing` | script.js:102 | a batch without an intersecting entry animates nothing |
| `Reveal.RevealObserver.constructor` | script.js:110-113 | all cards start observed and none animated |
| `Reveal.NoReanimation` | script.js:102-104 | while nothing is both observed and animated, a batch of entries for observed elements reveals no element already animated |
| `Reveal.RevealObserver.OnEntries` | script.js:100-107 | the callback adds the intersecting targets to the animated set and removes them from the observed set, keeping the two disjoint. A batch of entries for observed elements animates nothing already animated |
| `Reveal.RevealOnce` | script.js:100-106 | after a first batch its revealed elements are animated and no longer observed. A later batch of entries for the then-observed elements reveals none of them again |
| `ScrollTop.Shown` | script.js:156 | the button is to be shown when `pageYOffset > 300` |
| `ScrollTop.ThresholdBoundary` | script.js:156 | offset 300 hides the button and 301 shows it |
| `ScrollTop.ScrollTopButton.constructor` | script.js:130-153 | the button starts hidden, with no scroll requested |
| `ScrollTop.ScrollTopButton.OnScroll` | script.js:155-161 | the button is shown iff offset > 300 and hidden otherwise, whatever it was before |
| `ScrollTop.ScrollTopButton.Click` | script.js:163-168 | a click requests scrolling to top 0 and leaves the display alone |
| `Anchors.OnAnchorClick` | script.js:21-33 | the default is prevented iff the href is not `#`. A scroll happens iff the default is prevented and the target exists, and it goes to that target |
| `ProfileImage.FirstInScope` | script.js:201-202 | the lookup returns the first input in document order within the scope, or none when no input is within it |
| `ProfileImage.PickFileInput` | script.js:198-204 | the button opens the first input in its controls container if there is one. Otherwise it opens the document's first input, or none if the document has none |
| `ProfileImage.IsImageType` | script.js:211 | the media type starts with `image/` |
| `ProfileImage.OnFileChange` | script.js:208-214 | no file selected gives no-op, a first file whose type does not start with `image/` gives the rejection notice, an image file is read |
| `ProfileImage.AvatarBackground` | script.js:240 | the avatar's background for a data URL is `url('` + data URL + `')` |
| `ProfileImage.AvatarBackgroundInjective` | script.js:240 | different data URLs give different avatar backgrounds |
| `ProfileImage.Applied` | script.js:233-241 | each picture element present shows the data URL (the `<img>` as its source, the avatar as `url('…')`); absent elements stay absent |
| `ProfileImage.AppliedLastWins` | script.js:233-241 | applying a second picture gives what applying only the second gives |
| `ProfileImage.AppliedDeterminesDataUrl` | script.js:233-241 | on a page with a picture element, equal displays come from equal data URLs |
| `ProfileImage.Restored` | script.js:226-227 | on load the display is `Applied` to the stored value when that value is present and non-empty, and unchanged otherwise |
| `ProfileImage.StoreThenRestore` | script.js:219-227 | after the key is overwritten with a non-empty data URL, the restore on load shows what the selection showed |
| `ProfileImage.ProfileImageManager.constructor` | script.js:226-239 | the manager starts from the page's picture elements and the local storage it finds |
| `ProfileImage.ProfileImageManager.ApplyProfileImage` | script.js:233-241 | the display becomes `Applied` of the old one; storage is untouched |
| `ProfileImage.ProfileImageManager.OnReadComplete` | script.js:216-220 | the display becomes `Applied`. Storage gets the key overwritten when the write succeeds and is left unchanged when it fails |
| `ProfileImage.ProfileImageManager.OnInputChange` | script.js:208-222 | a missing or non-image file changes neither display nor storage. An image file's completed read acts as `OnReadComplete` |
| `ProfileImage.ProfileImageManager.RestoreOnLoad` | script.js:225-227 | the stored value is shown iff it is present and non-empty, and storage is untouched |
| `ProfileImage.SelectThenReload` | script.js:216-227 | a selection whose store write succeeded is shown identically after a reload. After a failed write, the reload shows what storage held before |

## Left out

- `animateCounter` (script.js:116-128) is not modelled. It is never called, and it relies on floating-point increments and a timer.
- CSS text, the arrow icon and the hover `scale` of the scroll-to-top button are not modelled (script.js:130-153, 170-176). They are presentation.
- Smooth easing and the `block: 'start'` alignment of `scrollIntoView`/`scrollTo` are not modelled. The model records only which element or offset is requested.
- Intersection geometry (`threshold: 0.1`, `rootMargin`) is computed by the browser and is not modelled. Delivered entries are an input.
- FileReader decoding and the form of a data URL are not modelled. A read is one completion event carrying an opaque string.
- `StoreThenRestore` and `SelectThenReload` require a non-empty data URL. A real data URL always starts with `data:`, so it is never empty.
- Overlapping reads are not modelled, since they are event-loop concurrency. Completions applied in sequence end with the last one shown (`AppliedLastWins`).
- Alerts and console output are not modelled. Each alert appears only as an outcome value (`Notice`, `ChangeOutcome`).
- The outer try/catch of `initProfileImageHandler` is not modelled. This includes a `localStorage.getItem` that throws.
- A store write is a parameter (`storeOk`) and quota is not modelled.
- `document.querySelector(href)` is supplied as its result. An href that is not a valid CSS selector throws after the default is prevented. The model treats it like a missing target and does not model the exception.
- `Contact.ContactForm.Submit` does not model `preventDefault`, which the handler always calls. It also assumes `form.reset()` returns each field to an empty default value.
- Event binding (`addEventListener`, the `DOMContentLoaded` order) is not modelled. Each handler is a method that a caller invokes per event.
- `img.src` URL resolution is not modelled. The source is stored as given.
- `ProfileImage.AvatarBackground` keeps the string written to `style.backgroundImage`, and the model does not parse it as CSS. A data URL containing `'` makes the value invalid CSS, so the browser ignores the assignment and keeps the old background; a value read back is serialized as `url("…")`. Neither is modelled.
- `NavHighlight.DropFirst` works on Unicode characters, while `slice(1)` drops one UTF-16 code unit. For an href starting with a character outside the Basic Multilingual Plane, JavaScript leaves a lone surrogate and the link never matches. The model drops the whole character instead, so such a link can match. Lone surrogates cannot be written as Dafny strings, so the email check has the same gap.
- `Contact.ContactForm.Submit` assumes all four fields exist. When `getElementById` returns null, the handler throws after `preventDefault` and raises no notice; this case is not modelled.
