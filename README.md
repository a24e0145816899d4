# Subreddit feed filter — a Dafny model

This project models the logic of a browser extension that hides Reddit feed posts from blocked
subreddits. The model covers three scripts:

- **content.js**, the page script. It keeps a cache of the blocklist. It finds each post's
  subreddit name, hides posts whose subreddit is blocked, and gives every named post one
  "Filter"/"Filtered" button. The button toggles the subreddit in the stored list. A
  `MutationObserver` callback rescans the page when new post containers appear.
- **options.js**, the options page. It adds a typed name to the stored list (normalised, no
  duplicates, with an alert when the name is already there) and removes entries.
- **popup.js**, the toolbar popup. It has the same add and remove operations, but adding a name
  that is already there is silently ignored.

Module layout:

| file | module | models |
|---|---|---|
| `wrappers.dfy` | `Wrappers` | `Option`, standing for `null`/`undefined` and a failed match |
| `text.dfy` | `Text` | `trim()`, `toLowerCase()` and `startsWith()` on strings |
| `blocklist.dfy` | `Blocklist` | the `blockedSubreddits` storage entry (`SyncStorage`); the list edits the three scripts make; the lower-casing reload |
| `extraction.dfy` | `Extraction` | finding a post's subreddit name, with the regex `/\/r\/([^/]+)/i` written out as a left-to-right scan |
| `content.dfy` | `Content` | posts and buttons; one scan-and-apply pass; the toggle; the mutation-batch check; the `ContentScript` class around the cached list |
| `options.dfy` | `Options` | the `OptionsPage` class: `addSubreddit`, `removeSubreddit` |
| `popup.dfy` | `Popup` | the `PopupPage` class: the add handler, `removeSubreddit` |

The page's posts are an `array<Post>`, and the content script's methods update it in place. A
`Post` value holds three things:

- its candidate links, one slot per link selector, in selector order (`None` when
  `querySelector` finds nothing);
- whether it carries the `hidden-by-extension` class;
- its filter button, if any.

Storage is one `SyncStorage` object shared by the three scripts. Its field is `None` until the key
is first written. Every reader sees `result.blockedSubreddits || []`.

Points where the code does something a reader might not expect; the model follows the code:

- A post's text must start with lower-case `r/`. Text such as `R/Foo` is not stripped and falls
  back to the link's `href`.
- The settings pages trim and lower-case what is typed, but do not strip an `r/` prefix
  (`Blocklist.NormalizeKeepsPrefix`).
- A rescan never relabels an existing button (`Content.ButtonLabelNotRefreshed`). After a toggle,
  only the clicked button's label changes. Other posts of the same subreddit are hidden or shown
  again, but keep their old labels.
- The page selectors are joined into one `querySelectorAll` call, which returns each element once.
  A post is therefore never processed twice in one pass.
- The toggle compares the raw stored entries with the lower-case name, while the cache is
  lower-cased. A stored entry in capitals survives "un-filtering" and keeps the post hidden
  (`Blocklist.MixedCaseEntrySurvivesToggle`, `Content.UnfilterCanLeavePostHidden`).

## Model

| member | source | states |
|---|---|---|
| `Text.Trim` | content.js:115 | the result has no ECMAScript whitespace or line terminator at either end and is no longer than the input |
| `Text.TrimStripsSurroundingWhitespace` | options.js:21 | trimming whitespace + s + whitespace, where s has no whitespace at its ends, gives exactly s |
| `Text.TrimKeepsTrimmed` | popup.js:11 | a string with no whitespace at its ends is left unchanged, so trimming twice equals trimming once |
| `Text.StartsWith` | content.js:118 | true iff the string is at least as long as the prefix and agrees with it at every position of the prefix |
| `Text.Lower` | content.js:119 | same length; each character is lowered on its own; no capitals remain |
| `Text.LowerAppend` | content.js:150-152 | lower-casing distributes over concatenation |
| `Text.LowerKeepsLowerCase` | content.js:150-152 | a string with no capitals is its own lower-case form |
| `Text.LowerKeepsTrimmed` | options.js:21 | lower-casing keeps a trimmed string trimmed |
| `Blocklist.Normalize` | options.js:21 | the typed name after trim then lower-case: no whitespace at its ends, no capitals |
| `Blocklist.NormalizeIdempotent` | popup.js:11 | normalising a normalised name changes nothing |
| `Blocklist.NormalizeDropsBlanksAndCase` | options.js:21 | surrounding blanks are dropped and capitals lowered, so " Foo " and "foo" normalise alike |
| `Blocklist.NormalizeKeepsPrefix` | options.js:21 | "R/" + name normalises to "r/" + lower(name): the prefix is not stripped |
| `Blocklist.SyncStorage.Get` | content.js:150 | what every reader sees: the stored list once the key is written, and the empty list before that |
| `Blocklist.WithAdded` | options.js:25-26 | a name already present leaves the list unchanged; otherwise the name is appended at the end; either way the name is present and no other entry appears |
| `Blocklist.WithAddedIdempotent` | popup.js:15-16 | adding a name twice is the same as adding it once |
| `Blocklist.RemoveAll` | options.js:77 | the string is absent afterwards; every other value is present exactly when it was before |
| `Blocklist.RemoveAllAppend` | popup.js:53 | filtering distributes over concatenation, so the kept entries stay in their relative order |
| `Blocklist.RemoveAllAbsent` | options.js:77 | filtering out a string the list does not hold returns the list unchanged |
| `Blocklist.RemoveAllCounts` | popup.js:53 | as multisets, the result is the input with every copy of the string removed and all other counts kept |
| `Blocklist.RemoveAllKeepsNoDuplicates` | content.js:67-69 | filtering keeps a duplicate-free list duplicate-free |
| `Blocklist.Toggled` | content.js:63-77 | the name is in the result iff it was not in the list; membership of every other value is unchanged |
| `Blocklist.ToggleTwiceFromAbsent` | content.js:72-74 | from a list without the name, a toggle appends it once at the end, and a second toggle restores the original list |
| `Blocklist.ToggleFromPresent` | content.js:65-69 | when the name occurs once, toggling removes it and keeps the entries before and after in order |
| `Blocklist.EditsKeepWellFormed` | options.js:25-27 | adding, removing and toggling a lower-case name keep the list lower-case and free of duplicates |
| `Blocklist.LowerAll` | content.js:150-152 | the reloaded cache keeps length and order, and each entry is the lower-cased stored entry |
| `Blocklist.LowerAllKeepsLowerCase` | content.js:150-152 | reloading an all-lower-case list gives the same list |
| `Blocklist.ToggleFlipsCache` | content.js:60-82 | for a lower-case list, the name is in the cache reloaded after the toggle iff it was not stored before |
| `Blocklist.MixedCaseEntrySurvivesToggle` | content.js:63-69 | with an entry stored in capitals beside the lower-case name, un-filtering leaves only the capitalised entry, and it lowers back to the name in the cache |
| `Extraction.SegmentEnd` | content.js:122 | the greedy `[^/]+` run ends at the first slash at or after its start, or at the end of the string |
| `Extraction.MatchFrom` | content.js:122 | nothing is found iff the pattern matches nowhere from there on; a group is non-empty and slash-free |
| `Extraction.CaptureGroup` | content.js:122-123 | `match[1]` is absent iff `/r/` (either case of r) followed by a non-slash occurs nowhere; otherwise it is non-empty and slash-free |
| `Extraction.CaptureGroupIsLeftmost` | content.js:122 | the group comes from the leftmost match and is the whole run of non-slash characters after `/r/` |
| `Extraction.SegmentEndIsFirstSlash` | content.js:122 | the end of the run is exactly the first slash after its start, or the end of the string |
| `Extraction.CaptureGroupOfCommunityPath` | content.js:116-124 | an href "/r/" + segment, followed by nothing or by "/…", yields exactly the segment |
| `Extraction.LinkName` | content.js:115-127 | a name from a candidate is lower-case; when the text has no "r/" prefix, the name is non-empty and slash-free |
| `Extraction.TextPrefixWins` | content.js:118-120 | when the trimmed text starts with "r/", the name is the rest of the text, lower-cased, whatever the href |
| `Extraction.HrefFallback` | content.js:121-127 | otherwise the name is the lower-cased capture group of the href; a missing href and an empty one both yield nothing |
| `Extraction.Attempt` | content.js:113-114 | a selector that finds no element yields nothing; a found element yields its LinkName, which is lower-case |
| `Extraction.NameOf` | content.js:112-129 | a name is lower-case; there is no name iff no candidate yields one |
| `Extraction.FirstSuccessWins` | content.js:112-129 | the name is that of the first candidate, in selector order, that yields one |
| `Extraction.ExtractName` | content.js:103-129 | the selector loop with its early `break` returns the first candidate's name, as NameOf specifies |
| `Content.PostName` | content.js:131 | a post is named only by a non-empty, lower-case extracted name; an empty name counts as none |
| `Content.BarePrefixLeavesPostUnnamed` | content.js:118-131 | a first candidate whose text is exactly "r/" ends the search, and the post stays unnamed whatever later candidates hold |
| `Content.NewButton` | content.js:21-30 | a new button is bound to the name; its text reads "Filtered" and it has class "filtered" iff the name is blocked |
| `Content.WithButton` | content.js:17-30 | a post that already has a button is returned unchanged; otherwise it gains the new button for the name under the given cache, and its links and visibility are kept |
| `Content.Scanned` | content.js:131-143 | an unnamed post is untouched; a named post has a button and is hidden iff its name is in the cache; an existing button is kept |
| `Content.ScanIdempotent` | content.js:17-19 | a second pass with the same cache changes nothing |
| `Content.NewButtonReflectsCache` | content.js:23-30 | a button created by a pass carries the post's name and reads "Filtered" iff the name is blocked at creation time |
| `Content.ButtonLabelNotRefreshed` | content.js:17-19 | a later pass, even with another cache, never changes an existing button |
| `Content.Relabelled` | content.js:70-76 | the clicked button's text and "filtered" class are both set to the new state; its bound name and its title are kept; the post's links and visibility are unchanged |
| `Content.ToggleThenReloadAgrees` | content.js:60-84 | for a lower-case stored list, after the click and the reload it triggers, the clicked post is hidden iff it was shown before, and its button agrees |
| `Content.UnfilterCanLeavePostHidden` | content.js:65-71 | with a capitalised copy of the name stored, un-filtering leaves the button reading "Filter" while the post stays hidden |
| `Content.NewContentPotentiallyAdded` | content.js:162-183 | the nested loop with its two `break`s reports true iff some added node is, or contains, a post container |
| `Content.ApplyStyles` | content.js:5-13 | only the given post's hidden flag changes, and it is set to the argument |
| `Content.ContentScript.constructor` | content.js:3 | the cache starts empty |
| `Content.ContentScript.AddFilterButton` | content.js:15-58 | a post that has a button is unchanged; otherwise it gets one button labelled from the current cache; no other post changes |
| `Content.ContentScript.FilterFeedContent` | content.js:86-145 | every post becomes its scanned form under one snapshot of the cache |
| `Content.ContentScript.LoadAndFilter` | content.js:148-155 | the cache becomes the lower-cased stored list (empty when unset), then one pass runs |
| `Content.ContentScript.ToggleSubredditFilter` | content.js:60-84 | storage holds the toggled list; the cache is its lower-cased form; the clicked button is relabelled; every post is rescanned |
| `Content.ContentScript.OnMutations` | content.js:161-189 | one pass runs iff a post container was added, and none otherwise; never more than one per batch |
| `Options.OptionsPage.AddSubreddit` | options.js:20-42 | empty input: nothing written; name present: alert outcome, nothing written; otherwise the name is appended, the list is written and the box is cleared |
| `Options.OptionsPage.RemoveSubreddit` | options.js:74-88 | storage holds the old list with every copy of the entry filtered out |
| `Popup.PopupPage.AddClicked` | popup.js:10-30 | the same as the options page, but a name already present is ignored silently, with no alert |
| `Popup.PopupPage.RemoveSubreddit` | popup.js:50-64 | storage holds the old list with every copy of the entry filtered out |

## Left out

- `chrome.storage.sync` is asynchronous. The model runs each read-modify-write as one atomic step on a shared `SyncStorage` object. Lost updates when two pages write at once (last write wins) are concurrency and are not modelled.
- Messaging is not modelled: `chrome.tabs.query`, `chrome.tabs.sendMessage` and the `chrome.runtime.onMessage` listener (content.js:199-206, options.js:31-35, popup.js:21-25). The listener's only effect is `loadAndFilter`, which `ContentScript.LoadAndFilter` models. Its acknowledgement string is not modelled.
- CSS selector matching is an input. Each post comes with its ordered candidate links, and each added node comes with one boolean saying whether it is or contains a post container.
- DOM layout and wiring are not modelled: the `position` fix-up and the placement of the button (content.js:38-55), the click listener with `preventDefault`/`stopPropagation` (content.js:32-36), observer registration (content.js:192-196), and the initial `loadAndFilter()` call (content.js:158), which is the constructor followed by `LoadAndFilter`.
- List rendering in `loadBlockedList` (options.js:44-72, popup.js:32-48) is not modelled. The alert is the `AlreadyBlocked` outcome.
- Post containers are assumed not to nest. `Post.button` stands for the subtree query at content.js:17 and `hidden` for the container's own class. In the page, the post selectors (content.js:90-96) can match a container inside another (an `article` inside a `.scrollerItem`). An outer container's button can then sit inside the inner one and stop it getting its own, and the outer container's hidden class also hides the inner one. The model gives each post its own button and visibility and does not capture this aliasing.
- The commented-out snippet at the end of popup.js (lines 67-74) has no effect and is not modelled.
- `Text.Lower`: lowers ASCII capitals only. Full Unicode `toLowerCase` (including characters whose lower-case form has a different length) is not modelled.
- `Content.ContentScript.ToggleSubredditFilter`: requires the clicked post to be in the current array. In the browser, a button detached from the page can still be clicked through a kept reference. The model does not cover that case.
