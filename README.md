# Copy Message ID content script: a Dafny model of its core

The content script adds a "Copy Message ID" entry to a web mail client's
message menu. A mutation observer records each "More" options button it sees
in the list `menuBtns`. Opening a menu clones its first visible entry. The
clone is relabelled and given the marker id `copy-msg-id`, then appended to
the menu. Clicking the entry builds the mail host's "original message" URL
from the page's message id, session key (`ik`) and `<base>` href, fetches it,
and composes `rfc822msgid:<id>` from the answer.

The model covers the logic beneath the DOM and network plumbing:

- `Registry` (registry.dfy): `menuBtns` as a class field. The observer
  callback is a method with the source's two nested loops. `Track` and
  `Offer` are its specification, and lemmas state that the list only grows at
  its end and never tracks an id twice.
- `Dom` (dom.dfy): an element is `Node(tag, id, text, attrs, children)` and a
  position is a path of child indices. `PostOrder` is the order in which
  `walk` calls its callback. `FirstMatch` is the document-order search behind
  `querySelector` with an attribute or id selector. `FirstInPostOrder` is the
  first node the walk meets that satisfies a test.
- `MenuItem` (menu_item.dfy): `walk` with the `setMenuItemProps` callback, as
  a recursive method with a loop over the children. It rewrites ids and
  records `lastElement`. `MenuItemProps` specifies the finished clone.
- `Injector` (injector.dfy): `btnInjectedAlready`, and `InjectCopyMsgIdBtn`
  as a method of a `Page` class whose open menu it changes in place.
  `Injection` specifies it; lemmas give idempotence and uniqueness of the
  marker.
- `DiagnosticUrl` (diagnostic_url.dfy): `buildUrl` as a method with the
  source's loop-and-break over the `<base>` hrefs. `BuiltUrl` specifies it.
  The URL is a base href plus its list of appended query pairs.
- `Fetcher` (fetcher.dfy): `makeRequest` and `getMsgId` as total functions.
  The server's answer and the HTML extraction are inputs.

The model follows the code as written, including where it departs from its apparent intent:

- Buttons are de-duplicated by their `id` attribute, not by element identity
  (src/content.ts:10). Two different buttons with the same id, the empty id
  for instance, yield one entry (`Registry.SameIdDistinctElements`).
- The id suffix goes to nodes whose id is EMPTY (`if (!element.id)`,
  src/content.ts:40-41). Such nodes get `-copy-msg-id`. A node with a
  non-empty id keeps it unchanged, so it still matches the same id in the
  original entry.
- When every node of the template is an `IMG`, `lastElement` stays null. The
  `textContent` assignment then throws (src/content.ts:46), so nothing is
  appended: the model returns the `Threw` outcome and leaves the menu
  unchanged.
- A failing `fetch` rejects the promise of `makeRequest` and `getMsgId`
  instead of yielding "". Status 404 yields "" in the same way as any other
  non-200 status.
- Assigning `textContent` removes the target node's children as well as
  setting its text. The target is the first non-image node in post-order, so
  those children are all images. The model removes them.

## Model

| member | source | states |
|---|---|---|
| `Registry.TriggerRegistry.OnMutations` | src/content.ts:3-15 | the observer's nested loops leave `menuBtns` as the old list with each candidate of the batch offered in order (`Track`); old entries keep their places and no id is tracked twice afterwards |
| `Registry.TriggerRegistry.constructor` | src/content.ts:1 | the registry starts empty and satisfies its invariant |
| `Registry.OfferSpec` | src/content.ts:10-12 | about `Offer`, one candidate against the list: a candidate whose id is already tracked leaves the list unchanged; otherwise it is appended at the end; either way its id is tracked afterwards |
| `Registry.TrackExtends` | src/content.ts:12 | the list only grows by appending: the old list is a prefix and every new entry is one of the candidates |
| `Registry.TrackKeepsIdsDistinct` | src/content.ts:4-15 | if no two tracked buttons share an id before the callback, none do after it |
| `Registry.TrackIds` | src/content.ts:4-15 | about `Track`, the list after offering every candidate in turn: an id is tracked afterwards exactly when it was tracked before or belongs to some candidate |
| `Registry.SameIdDistinctElements` | src/content.ts:10 | two different button elements that both have an empty id yield a single entry, the first |
| `Dom.WalkVisitsEveryNodeOnce` | src/content.ts:70-75 | `PostOrder`, the sequence of paths `walk` hands its callback, shows that `walk` calls its callback once per node of the tree and on no other path; its calls come in post-order: each child's subtree left to right, then the node itself |
| `Dom.PostOrderCovers` | src/content.ts:70-75 | a path is visited by `walk` if and only if it names a node of the tree |
| `Dom.PostOrderOrdered` | src/content.ts:70-75 | of any two visits, the earlier one precedes the later one in post-order |
| `Dom.FirstMatchSpec` | src/content.ts:24 | `FirstMatch`, the model of `querySelector` (also used at line 67), states that `querySelector` returns a node below the root that matches the selector, and no earlier node in document order matches; when it returns none, no node below the root matches |
| `Dom.FirstInPostOrderSpec` | src/content.ts:43 | the node chosen as `lastElement` passes the test, and every node `walk` visits before it fails the test; nothing is chosen exactly when no node passes |
| `Dom.FirstInPostOrderIsFirstVisit` | src/content.ts:38-44 | the chosen node is the first visit of `walk` whose node passes the test |
| `Dom.AtConcat` | src/content.ts:24-26 | the node at `q` inside the cloned entry is the node at `template + q` in the menu |
| `MenuItem.Walk` | src/content.ts:38-44 | `walk` run with the callback leaves every node's id rewritten by the callback rule and returns in `lastElement` the first non-image node in walk order, unless one was already recorded |
| `MenuItem.RenamedAt` | src/content.ts:40-41 | the id rewrite keeps every position of the tree and changes each node by the callback rule alone |
| `MenuItem.SetTextContentAt` | src/content.ts:46 | setting `textContent` removes exactly the nodes below the target and changes the target's text, and no other node's own fields |
| `MenuItem.SetMenuItemProps` | src/content.ts:33-48 | `setMenuItemProps` on the clone produces the `MenuItemProps` rewrite, or the error thrown when `lastElement` stays null |
| `MenuItem.MenuItemPropsSpec` | src/content.ts:33-48 | `MenuItemProps`, the clone after `setMenuItemProps`, fails exactly when every node is an `IMG`. Otherwise: the root has id `copy-msg-id` and aria-label "Copy Message ID", keeps its other attributes, and keeps its text unless it is the label target; every node below the root keeps its tag and attributes; a node whose id was empty gets `-copy-msg-id` and a non-empty id is kept; only the first non-image node in walk order gets the label text, and it loses its subtree, which held only images; no node is added |
| `Injector.BtnInjectedAlready` | src/content.ts:66-68 | true if and only if some node strictly below the menu has id `copy-msg-id` |
| `Injector.Page.InjectCopyMsgIdBtn` | src/content.ts:20-31 | with no menu open nothing changes; otherwise the menu becomes what `Injection` gives and the outcome is reported |
| `Injector.InjectionSpec` | src/content.ts:20-31 | `Injection`, the menu and outcome after one call, returns early, leaving the menu unchanged, exactly when the marker is present, when no `aria-hidden=false` entry exists, or when the template holds only images (throw). Otherwise the template is the first visible entry in document order; its relabelled clone is appended as the last child, earlier children are untouched, and the clone's root is the only node below the menu with the marker id |
| `Injector.MarkedOnlyAtClone` | src/content.ts:26-30 | when the menu had no marker, after the relabelled clone is appended its root is the only node below the menu with id `copy-msg-id` |
| `Injector.InjectionIdempotent` | src/content.ts:20-31 | a second call leaves the menu as the first call left it; after a successful append the second call stops at the marker check |
| `DiagnosticUrl.HashIndex` | src/content.ts:87 | the position of the first `#`, or the length when there is none |
| `DiagnosticUrl.RemoveFirstHash` | src/content.ts:87 | `replace('#', '')` removes the first `#` only and leaves a string without `#` unchanged |
| `DiagnosticUrl.IncludesSpec` | src/content.ts:95 | `includes` holds exactly when the pattern occurs at some position; a string that includes a pattern is at least as long as it |
| `DiagnosticUrl.FirstMailBase` | src/content.ts:91-99 | the chosen `<base>` is the first whose href contains `mail.google.com`; none is chosen exactly when no href contains it |
| `DiagnosticUrl.BuildUrl` | src/content.ts:86-108 | the method with the early return, the loop-and-break and the three `append` calls computes `BuiltUrl` |
| `DiagnosticUrl.BuiltUrlSpec` | src/content.ts:86-108 | `BuiltUrl`, what `buildUrl` returns, gives no URL (the empty string) exactly when the id after removing its first `#` is missing or empty, the `ik` value is missing or empty, or no base href contains the mail host. Otherwise the href is the first matching base, the appended pairs are `ik`, `view=om` and `permmsgid`, in that order, and reading them back gives the inputs |
| `Fetcher.MakeRequest` | src/content.ts:110-123 | fetches only when the URL is non-empty; an empty URL gives ""; the promise rejects only on a failed request; a non-empty result is the body of a status-200 response, and status 200 always gives its body |
| `Fetcher.GetMsgIdSpec` | src/content.ts:77-84 | `GetMsgId`, the model of `getMsgId`: the identifier is "" exactly when no URL is built or the answer is not a 200 with a non-empty body, and the promise rejects only on a failed request. Otherwise the identifier is `rfc822msgid:` followed by the extracted text, or by `undefined` when there is none, and stripping the prefix gives that text back |
| `Fetcher.GetMsgIdOfMessageIdElement` | src/content.ts:77-84 | a 200 answer whose `.message_id` element reads `ABC123` yields `rfc822msgid:ABC123` |

## Left out

- Registration of the `MutationObserver` and of the `click` listeners on the tracked buttons (src/content.ts:16-18). This is browser event wiring. Whether re-adding a listener is harmless depends on the browser's listener semantics, which are not modelled.
- `setMenuItemListeners` (src/content.ts:50-64): the hover class toggling and the asynchronous click continuation that copies the identifier. Both are event wiring. The race with a menu that has closed in the meantime is about asynchrony.
- The clipboard writers `copyTextToClipboard` and `fallbackCopyTextToClipboard` (src/content.ts:125-159) are browser side effects with console logging. Console logging is left out everywhere, including on a 404.
- CSS selector matching: the selector that finds the open menu and the one that finds the "More" button inside an added node are inputs to the model (`Page.menu`, `AddedNode.moreButton`). The attribute and id selectors inside the menu (`[aria-hidden=false]`, `#copy-msg-id`) are modelled as a document-order search for a node property.
- `fetch`, `response.text()` and `DOMParser` are inputs to the model: the server's answer is the `Response` value, and the extraction of the `.message_id` text is the `messageIdText` function.
- The WHATWG `URL` parser: a URL is its base href plus the list of pairs appended to it. The model does not capture that `new URL` throws on a malformed href, percent-encoding, serialisation, or query pairs the base href may already carry.
- The DOM's node kinds: `walk` also visits text and comment nodes. The model treats every node as an element. A text node's `id` is an expando property invisible to selectors, so the model does not capture what it holds.
- Element identity: the menu, its entries, the clone and the tracked buttons are values. Aliasing between the live menu and other references to it is not modelled. The in-place `appendChild` is modelled by reassigning the `Page.menu` field. The id of a tracked button is fixed when the button is first seen. The source compares against each stored element's current id (src/content.ts:10), so a page that changes a tracked button's id between callbacks is not modelled.
