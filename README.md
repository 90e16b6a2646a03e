# Navigation bar and contact dialog: decision logic

This project models the decision logic of two React interface components and
proves what it does.

- **The animated navigation bar** (`AnimeNavBar`). It tracks which entry is
  active while the page scrolls. It also handles clicks (smooth scroll to an
  in-page anchor, or navigation to a url), hover enter and leave, and the
  narrow/wide viewport classification.
- **The contact dialog** (`ContactDialog`). It is one email field with Submit
  and Cancel. A submission shows a thank-you view. A timer later clears the
  form and asks the parent to close the dialog.

The DOM is abstracted away:

- `document.querySelectorAll('section[id]')` becomes a sequence of `Section(id, top, height)` values, in document order.
- `document.getElementById` becomes a map from element id to `offsetTop`.
- `window.innerWidth` and `window.scrollY` become integer parameters.
- Listener registration becomes the boolean field `scrollTracking`.
- `setTimeout` becomes the explicit event `ResetFires`. The field `pendingResets` counts callbacks scheduled and not yet run.
- Every `onOpenChange` call is appended to the field `openChanges`.

Files:

- `NavBar.dfy` holds module `NavBar`: the selection functions, the lemmas about them, and the class `AnimeNavBar`.
- `Contact.dfy` holds module `Contact`: the class `ContactDialog` and three client scenarios.

## Scroll selection and dialog timing in the code

- The `forEach` loop overwrites `currentSection`, so the **latest** qualifying section in document order wins (`LastProposalLatest`).
- When sections exist but none proposes a name, the result **resets to `defaultActive`** (`ScrollOutcomeCases`).
- Only a page with **zero** sections leaves `activeTab` untouched.
- A section whose `id` attribute is the empty string never qualifies.
- Of several items with the same url, the first one gives the name.
- `isMobile` is computed and stored, but rendering does not read it. The label/icon switch is done by CSS breakpoint classes. The model keeps `isMobile` as state only.
- The delayed reset has no stale-timer protection. `StaleResetClosesReopenedDialog` shows a reset scheduled before the dialog was closed and reopened: it still asks the reopened dialog to close.

## Model

| member | source | states |
|---|---|---|
| `NavBar.IsAnchor` | src/components/ui/anime-navbar.tsx:77 | `url.startsWith('#')`; a definition used by `HasHashItems`, `ClickOutcome` and `AnchorTargetId` |
| `NavBar.HasHashItems` | src/components/ui/anime-navbar.tsx:77 | true exactly when some item's url starts with `#` |
| `NavBar.FindItem` | src/components/ui/anime-navbar.tsx:65 | the index of the first item whose url equals the given url; none exactly when no item has that url |
| `NavBar.InView` | src/components/ui/anime-navbar.tsx:61 | the half-open test `top <= scrollY+100 < top+height`; a definition used by `Proposal`, whose contract states it |
| `NavBar.Proposal` | src/components/ui/anime-navbar.tsx:58-69 | one loop step proposes a name exactly when `top <= position < top+height`, the id is non-empty and some item's url is `"#"+id`; the name is that of the first such item |
| `NavBar.LastProposal` | src/components/ui/anime-navbar.tsx:55-71 | reference definition of the loop's result, walking the sections from the end; characterised by `LastProposalNone`, `LastProposalLatest` and `LatestProposerExists`, and matched by `ScanSections` |
| `NavBar.ScrollOutcome` | src/components/ui/anime-navbar.tsx:43-74 | reference definition of the value the scroll handler writes to `activeTab`; characterised by `ScrollOutcomeCases` |
| `NavBar.LastProposalNone` | src/components/ui/anime-navbar.tsx:55-71 | the loop leaves `currentSection` at its default exactly when no section proposes a name |
| `NavBar.LastProposalLatest` | src/components/ui/anime-navbar.tsx:57-71 | when several sections propose, the one latest in document order decides |
| `NavBar.LatestProposerExists` | src/components/ui/anime-navbar.tsx:57-71 | if any section proposes a name, a latest proposing section exists |
| `NavBar.ScrollOutcomeCases` | src/components/ui/anime-navbar.tsx:43-74 | no sections: `activeTab` unchanged; sections but no proposal: `defaultActive`; otherwise the latest proposal; with sections the result is `defaultActive` or some item's name |
| `NavBar.ScanSections` | src/components/ui/anime-navbar.tsx:55-71 | the loop's result equals the latest proposal, or `defaultActive` when there is none |
| `NavBar.RemoveFirst` | src/components/ui/anime-navbar.tsx:140 | reference definition of `replace("#", "")`; characterised by `RemoveFirstOccurrence` and `RemoveFirstAbsent` |
| `NavBar.RemoveFirstOccurrence` | src/components/ui/anime-navbar.tsx:140 | `replace("#", "")` removes only the first `#` and keeps the rest in order |
| `NavBar.RemoveFirstAbsent` | src/components/ui/anime-navbar.tsx:140 | a url without `#` is left unchanged by `replace` |
| `NavBar.AnchorTargetId` | src/components/ui/anime-navbar.tsx:138-140 | for a url starting with `#`, the target id is the url minus its leading `#` |
| `NavBar.ClickOutcome` | src/components/ui/anime-navbar.tsx:138-152 | an anchor whose element exists scrolls to `offsetTop - 80`; a missing element does nothing; any other url navigates to that url |
| `NavBar.AnimeNavBar.constructor` | src/components/ui/anime-navbar.tsx:21-84 | mount: `defaultActive` falls back to `"Home"`, no hover, `isMobile` iff width < 768, scroll listener iff some anchor item, and one initial scroll evaluation only then |
| `NavBar.AnimeNavBar.HandleResize` | src/components/ui/anime-navbar.tsx:32-34 | `isMobile` is true exactly when the viewport width is below 768 |
| `NavBar.AnimeNavBar.HandleScroll` | src/components/ui/anime-navbar.tsx:43-74 | reachable only while the listener is registered; the new `activeTab` is the scroll outcome for `scrollY + 100`; nothing else changes |
| `NavBar.AnimeNavBar.WindowScrolled` | src/components/ui/anime-navbar.tsx:79-84 | without an anchor item a scroll leaves `activeTab` unchanged; with one it runs the handler |
| `NavBar.AnimeNavBar.UpdateProps` | src/components/ui/anime-navbar.tsx:76-89 | new props re-register scroll tracking iff some item is an anchor, then run the handler once; `activeTab` is otherwise kept |
| `NavBar.AnimeNavBar.Click` | src/components/ui/anime-navbar.tsx:133-152 | the clicked item becomes active whatever the scroll state, and the click effect is returned |
| `NavBar.AnimeNavBar.MouseEnter` | src/components/ui/anime-navbar.tsx:154 | the entered item's name becomes `hoveredTab` |
| `NavBar.AnimeNavBar.MouseLeave` | src/components/ui/anime-navbar.tsx:155 | `hoveredTab` is cleared |
| `NavBar.AnimeNavBar.IsActive` | src/components/ui/anime-navbar.tsx:126 | `activeTab === item.name`, the active-glow predicate; used by `ShowsHover` and `AtMostOneActive` |
| `NavBar.AnimeNavBar.ShowsHover` | src/components/ui/anime-navbar.tsx:207 | the hover highlight never falls on the active item |
| `NavBar.AnimeNavBar.AtMostOneActive` | src/components/ui/anime-navbar.tsx:126 | with distinct item names, at most one item is drawn as active |
| `Contact.ContactDialog.constructor` | src/components/ui/contact-dialog.tsx:15-16 | initial state: empty email, not submitted, nothing pending, nothing emitted |
| `Contact.ContactDialog.CurrentView` | src/components/ui/contact-dialog.tsx:44 | the form is shown exactly while `submitted` is false; the thank-you view exactly while it is true |
| `Contact.ContactDialog.ChangeEmail` | src/components/ui/contact-dialog.tsx:63 | `email` becomes the new value; nothing else changes |
| `Contact.ContactDialog.Submit` | src/components/ui/contact-dialog.tsx:18-32 | an empty email changes nothing; a non-empty one sets `submitted`, keeps `email`, schedules exactly one reset and emits nothing |
| `Contact.ContactDialog.Cancel` | src/components/ui/contact-dialog.tsx:76 | emits `onOpenChange(false)`; `email` and `submitted` are unchanged |
| `Contact.ContactDialog.Dismiss` | src/components/ui/contact-dialog.tsx:35 | the dialog primitive's dismissals only emit `onOpenChange(false)` |
| `Contact.ContactDialog.SetOpen` | src/components/ui/contact-dialog.tsx:35 | the parent's `open` flag changes; the form state and pending resets are kept |
| `Contact.ContactDialog.ResetFires` | src/components/ui/contact-dialog.tsx:26-30 | `submitted` becomes false, `email` becomes empty, one pending reset is consumed, and `onOpenChange(false)` is emitted once |
| `Contact.SubmitThenReset` | src/components/ui/contact-dialog.tsx:18-32 | type, submit, run the timer: the thank-you view in between, then an empty form, and exactly one close request |
| `Contact.SubmitEmpty` | src/components/ui/contact-dialog.tsx:21 | submitting an empty field leaves the form shown, schedules nothing and emits nothing |
| `Contact.StaleResetClosesReopenedDialog` | src/components/ui/contact-dialog.tsx:26-30 | a reset scheduled before a close and reopen still fires into the reopened dialog and asks it to close |

## Left out

- Rendering, CSS classes, the logo, the Twitter button and all framer-motion animations: presentation only.
- The icon glyph of a navigation item: it is a visual reference with no logic.
- The `mounted` render gate: it only delays the first paint and holds no decision.
- Real DOM queries, and the registration and removal of window listeners: sections and elements are parameters, and the scroll listener is the flag `scrollTracking`.
- The React effect lifecycle. The model runs both effects at mount (`constructor`) and re-runs the scroll effect in `UpdateProps`.
- Smooth-scroll motion and the effect of `window.location`: only the computed target offset or url is returned.
- Fractional `scrollY`: coordinates and scroll offsets are integers.
- The 2000 ms delay, `console.log` and any real email hand-off: the timer is the explicit event `ResetFires`.
- The Radix dialog primitive's focus trap, escape key and outside-click detection: `Dismiss` only models that they emit `onOpenChange(false)`.
- Browser constraint validation of the email input (`type="email"` and `required`): the model is the submit handler alone. In the page the browser blocks the submit event for an empty or malformed address, while `Submit` in the model accepts any non-empty string.
- Unmounting the dialog: there is no unmount event. In the code, a pending reset still calls `onOpenChange(false)` after the dialog has been unmounted.
- `Contact.ContactDialog.Submit` and `Contact.ContactDialog.Cancel` require the form view, because both events come only from the form. The model does not capture a submit arriving while the form is still animating out.
