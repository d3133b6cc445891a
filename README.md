# HACS front end: markdown pipeline, routing and panel logic

This project models the deterministic core of the HACS (Home Assistant
Community Store) front end and proves what it does.

**The markdown pipeline** (`markdown.html`) has six stages, run in a fixed
order:

1. Emoji short codes are expanded.
2. GitHub `blob` URLs are rewritten to the raw-content host.
3. Relative images are prefixed with the repository's raw `master` path.
4. marked converts the markdown to HTML, with a highlight.js dispatch on the
   code-block language.
5. The XSS filter runs.
6. External anchors are turned into `hacs-link` widgets.

The three global regular expressions are matchers that are exact on text without characters outside the Basic Multilingual Plane:
- Patterns.dfy follows JavaScript's backtracking order: greedy runs are tried
  longest first.
- String-pattern `replace` replaces the first occurrence only.
- The `/gm` literal replacements replace every occurrence.

The libraries are uninterpreted function parameters: node-emoji, marked, the
XSS filter and highlight.js.

**The UI logic** around the pipeline:
- **The shell's route.** Covers the prefix and path, `locationChanged`, the
  root redirect, view dispatch, the segment getters, and the rebuilding of the
  shared `Hacs` object.
- **The repository page.** Covers selection by id, the `shouldUpdate` and
  `firstUpdated` changes, the back label and back navigation,
  version-dropdown entries, the version-choice events and the
  additional-information card.
- **The overflow menu.** Covers the help URL, the settings action strings,
  item visibility, the background-task guard, and the pending-upgrade list
  and its confirmation message.
- **The changelog button.** Covers its URL and its install action order.

Modules:
- `Wrappers`: `Option` and `Result`.
- `Strings`, `StringLemmas`: the JavaScript string operations and their laws.
- `Patterns`, `PatternLemmas`: the three regexes and global replacement.
- `Data`: the records shared with the backend.
- `Markdown`, `MarkdownLemmas`: the pipeline.
- `Frontend`: `HacsFrontend.ts`.
- `RepositoryPanel`: `repository.ts`.
- `Menu`: `HacsMenu.ts`.
- `Changelog`: `HacsButtonChangelog.ts`.

State that the source changes in place becomes a class whose methods state the
whole new state:
- `Frontend.Shell`
- `RepositoryPanel.Panel`
- `Menu.HacsMenu`
- `Changelog.ChangelogButton`
- `Markdown.Registry`

The effects these classes produce are kept as ordered sequences on the
object:
- browser navigation, reload, redraw and scroll;
- websocket messages;
- dispatched DOM events;
- dialogs.

The loops in `UpgradeAll` are methods with loop invariants. Each is proved
equal to a specification function, and the upgrade properties are lemmas
about those functions.

The model follows the code as written, including these behaviours:
- the image prefix always uses the `master` branch;
- a missing repository is not guarded against: the image stage fails if and
  only if its pattern matches somewhere;
- `markdown.html` has no short-circuit for empty input;
- the blob pattern's `\/blob*` also accepts `/blo` followed by any character,
  so `/blog` or `/blo/` starts a match;
- the leading greedy run of the blob pattern extends to the last blob-like
  tail on the line, so two blob URLs on one line form one match, and only the
  first of them is rewritten;
- likewise the leading greedy run of the image pattern extends to the last
  plain `name.ext` target on the line, so an image with an absolute URL
  earlier on that line lies inside the match and receives the raw prefix in
  front of its URL;
- the greedy runs of the anchor pattern extend to the last `</a>` followed by
  a non-word character on the line, so plain `http://`, fragment or relative
  anchors later on a line that starts with an external anchor lie inside the
  match, and the callback turns them into `hacs-link` widgets as well;
- the image callback's second replace, of the first `/blob/` by `/`, never
  reaches the matched target, which allows no `/`: it rewrites a `/blob/` in
  the alt text or earlier in the match, or else one in the inserted prefix,
  so a repository named `blob` loses its name from the prefix.

## Model

| member | source | states |
|---|---|---|
| Strings.IndexOf | src/HacsFrontend.ts:336 | `includes`/`indexOf`: a result exists if and only if the pattern occurs, and it is the leftmost occurrence |
| Strings.ReplaceFirst | src/legacy/markdown/markdown.ts:45-47 | a string-pattern `replace` leaves text without the pattern unchanged and otherwise replaces exactly the leftmost occurrence, keeping what is before and after it |
| Strings.Split | src/HacsFrontend.ts:366 | `split("/")` gives at least one piece, none containing the separator, and joining the pieces gives back the input |
| Strings.Segment | src/HacsFrontend.ts:366 | no contract of its own: piece `i` of the split, or none where the source reads `undefined`; see Strings.Split and StringLemmas.SplitAtFirst |
| StringLemmas.SplitAtFirst | src/HacsFrontend.ts:366 | splitting text whose first separator follows `u` gives `u` followed by the pieces of the rest |
| StringLemmas.SplitWhole | src/HacsFrontend.ts:366 | text without the separator splits into itself alone |
| Strings.ReplaceAll | src/legacy/markdown/markdown.ts:67-68 | no contract of its own: the `/gm` literal replacement of every non-overlapping occurrence, left to right; see StringLemmas.ReplaceAllFree, ReplaceAllConcat and ReplaceAllKeepsFree |
| StringLemmas.ReplaceAllFree | src/legacy/markdown/markdown.ts:67-68 | a global literal replacement of a pattern that does not occur changes nothing |
| StringLemmas.ReplaceAllConcat | src/legacy/markdown/markdown.ts:67-68 | when no occurrence straddles the join, replacing every occurrence in `x + y` is replacing in `x` and in `y` separately |
| StringLemmas.ReplaceAllKeepsFree | src/legacy/markdown/markdown.ts:67-68 | a global replacement whose replacement cannot form a given tag adds no occurrence of that tag |
| StringLemmas.ReplaceFirstAfter | src/legacy/markdown/markdown.ts:46-47 | when nothing before `u + p` holds `p`, the first replacement happens right after `u` |
| Patterns.Greatest | src/legacy/markdown/markdown.ts:43 | the greedy choice: the largest position in the range that lets the rest match, or none when no position does |
| Patterns.BlobMatchAt | src/legacy/markdown/markdown.ts:43 | a blob match ends after its start, at the end of the text or just before whitespace |
| Patterns.ImageTail | src/legacy/markdown/markdown.ts:53 | the `](name.ext)` tail of an image match ends with `)` |
| Patterns.ImageMatchAt | src/legacy/markdown/markdown.ts:53 | an image match ends after its start and within the text; its shape is in PatternLemmas.ImageMatchShape and ImageMatchWhole |
| Patterns.AnchorMatchAt | src/legacy/markdown/markdown.ts:64 | an anchor match ends after its start and within the text; its shape is in PatternLemmas.AnchorMatchShape and AnchorMatchToEnd |
| Patterns.FindFrom | src/legacy/markdown/markdown.ts:42-43 | the leftmost match from `k`: it starts at or after `k`, the pattern matches there with that end, and no match starts between `k` and it; with no result nothing matches from `k` on |
| Patterns.ReplaceMatches | src/legacy/markdown/markdown.ts:42-50 | no contract of its own: a `/g` replace with a callback, the text between matches copied and each leftmost match replaced by the callback's result; see PatternLemmas.ReplaceMatchesNone, ReplaceMatchesWhole and ReplaceMatchesIdentity |
| PatternLemmas.BlobMatchShape | src/legacy/markdown/markdown.ts:43 | every blob match starts with `https://github.com/` |
| PatternLemmas.BlobMatchToEnd | src/legacy/markdown/markdown.ts:43 | a line made of the prefix, line characters, `/blo` and a non-space tail is one match to its end |
| PatternLemmas.BlobMatchWhole | src/legacy/markdown/markdown.ts:43 | `https://github.com/<owner>/<name>/blob/<path>` with a space-free path is matched whole |
| PatternLemmas.ImageMatchShape | src/legacy/markdown/markdown.ts:53 | every image match starts with `!` and ends in an image tail |
| PatternLemmas.ImageTailChars | src/legacy/markdown/markdown.ts:53 | the last target of an image match holds only word characters and `.`, so a match never ends in a target with `/`, `:` or a scheme |
| PatternLemmas.ImageMatchWhole | src/legacy/markdown/markdown.ts:53 | `![alt](name.ext)` on one line, with word-character name and extension, is matched whole |
| PatternLemmas.AnchorMatchShape | src/legacy/markdown/markdown.ts:64 | every anchor match starts with `<a href="http`, one word character and `://`, and ends with `</a>` and a non-word character |
| PatternLemmas.AnchorMatchToEnd | src/legacy/markdown/markdown.ts:64 | an external anchor whose closing tag is the last on its line is matched up to and including the character after `</a>` |
| PatternLemmas.ReplaceMatchesNone | src/legacy/markdown/markdown.ts:42-50 | with no match left, a global callback replacement copies the rest of the text |
| PatternLemmas.ReplaceMatchesWhole | src/legacy/markdown/markdown.ts:42-50 | text that is one match from end to end is replaced by the callback's result for it |
| PatternLemmas.ReplaceMatchesIdentity | src/legacy/markdown/markdown.ts:42-50 | a callback that returns every matched span unchanged leaves the text unchanged: text outside matches is copied |
| Markdown.BlobCallback | src/legacy/markdown/markdown.ts:44-49 | no contract of its own: see MarkdownLemmas.BlobCallbackRewrites |
| Markdown.BlobStage | src/legacy/markdown/markdown.ts:42-50 | no contract of its own: see MarkdownLemmas.BlobStageOneLine and BlobReadmeExample |
| Markdown.ImageCallback | src/legacy/markdown/markdown.ts:54-60 | no contract of its own: see MarkdownLemmas.ImageCallbackInserts for the prefix and ImageCallbackBlobStep for the `/blob/` replace |
| Markdown.AnchorCallback | src/legacy/markdown/markdown.ts:65-69 | no contract of its own: see MarkdownLemmas.AnchorCallbackRemovesLinks and AnchorCallbackRenames |
| Markdown.AnchorStage | src/legacy/markdown/markdown.ts:63-70 | no contract of its own: see MarkdownLemmas.AnchorStageOneAnchor, AnchorStageWholeLine, AnchorStagePlainLinks and AnchorStageAddsNoTag |
| Markdown.Highlight | src/legacy/markdown/markdown.ts:20-26 | no contract of its own: see MarkdownLemmas.HighlightRegistered and HighlightFallsBack |
| Markdown.Options | src/legacy/markdown/markdown.ts:19-31 | no contract of its own: the highlight function, `breaks`, `gfm` and `tables` on, and an empty language prefix |
| Markdown.Convert | src/legacy/markdown/markdown.ts:34-36 | no contract of its own: the Markdown converter run with those options |
| Markdown.ImageStage | src/legacy/markdown/markdown.ts:53-61 | without a repository the stage fails exactly when the image pattern matches; text with no match passes unchanged |
| Markdown.Render | src/legacy/markdown/markdown.ts:37-70 | the six stages in order; the pipeline fails if and only if there is no repository and the blob-rewritten emoji text holds an image match |
| Markdown.Html | src/legacy/markdown/markdown.ts:37-73 | reassigning the text stage by stage produces exactly the pipeline's result |
| Markdown.RegisterLanguages | src/legacy/markdown/markdown.ts:13-15 | the set-up registers `yaml`, `javascript` and `json`, in that order, in a fresh registry |
| Markdown.Registry.RegisterLanguage | src/legacy/markdown/markdown.ts:13 | registering appends the language to the registry |
| MarkdownLemmas.BlobCallbackRewrites | src/legacy/markdown/markdown.ts:44-49 | the blob callback turns `https://github.com/<head>/blob/<rest>` into `https://raw.githubusercontent.com/<head>/<rest>` |
| MarkdownLemmas.BlobStageOneLine | src/legacy/markdown/markdown.ts:42-50 | a blob URL alone on its line is rewritten by the callback as a whole |
| MarkdownLemmas.BlobReadmeExample | src/legacy/markdown/markdown.ts:42-50 | `https://github.com/foo/bar/blob/main/README.md` becomes `https://raw.githubusercontent.com/foo/bar/main/README.md` |
| MarkdownLemmas.ImageCallbackInserts | src/legacy/markdown/markdown.ts:54-60 | the image callback inserts the raw `master` prefix of the repository right after the first `(`, when the rewritten text holds no `/blob/` for the second replace to change |
| MarkdownLemmas.ImageCallbackBlobStep | src/legacy/markdown/markdown.ts:54-60 | when the text with the prefix inserted holds `/blob/`, the callback's result is that text with its first `/blob/` turned into `/` |
| MarkdownLemmas.ImageCallbackBlobInAlt | src/legacy/markdown/markdown.ts:54-60 | a `/blob/` in the alt text becomes `/` there, and the prefix still goes in after the `(` |
| MarkdownLemmas.ImageCallbackBlobRepository | src/legacy/markdown/markdown.ts:54-60 | for the repository `<owner>/blob` the callback removes `/blob` from the prefix it inserted, so the image points to `<owner>/master/<target>` |
| MarkdownLemmas.ImageMatchTarget | src/legacy/markdown/markdown.ts:53 | every image match ends in a `](` followed by a word-and-dot target and `)` |
| MarkdownLemmas.ImageStageEarlierTarget | src/legacy/markdown/markdown.ts:53-61 | an image with any target followed on the same line by one with a plain target is one match, and the raw `master` prefix goes in front of the first target |
| MarkdownLemmas.ImageStageOneLine | src/legacy/markdown/markdown.ts:53-61 | a relative image alone in the text is prefixed with the raw `master` path of the repository, and the same text without a repository fails |
| MarkdownLemmas.AnchorCallbackRemovesLinks | src/legacy/markdown/markdown.ts:65-69 | after the anchor callback no `<a href=` and no `</a>` is left |
| MarkdownLemmas.AnchorCallbackRenames | src/legacy/markdown/markdown.ts:65-69 | one anchor becomes the widget with the same href, content and trailing character |
| MarkdownLemmas.AnchorStageOneAnchor | src/legacy/markdown/markdown.ts:63-70 | the anchor stage turns a lone external anchor into a `hacs-link` keeping href, content and trailing character |
| MarkdownLemmas.AnchorStageWholeLine | src/legacy/markdown/markdown.ts:63-70 | a line from an external anchor to a last `</a>` and non-word character is one match whatever lies between, so no `<a href=` or `</a>` is left in it, including those of later plain, fragment or relative anchors |
| MarkdownLemmas.FragmentAfterExternal | src/legacy/markdown/markdown.ts:63-70 | a fragment link after an external anchor on the same line holds `<a href=` before the anchor stage and none after it |
| MarkdownLemmas.AnchorStagePlainLinks | src/legacy/markdown/markdown.ts:64 | HTML whose `<a href="http` is never followed by a word character, such as `http://` links, is left unchanged |
| MarkdownLemmas.AnchorStageAddsNoTag | src/legacy/markdown/markdown.ts:63-70 | the anchor stage introduces no tag that the filtered HTML did not hold |
| MarkdownLemmas.HighlightRegistered | src/legacy/markdown/markdown.ts:13-22 | with the three registered languages, a code block in one of them is highlighted explicitly |
| MarkdownLemmas.HighlightFallsBack | src/legacy/markdown/markdown.ts:20-26 | an empty or unknown language falls back to automatic detection |
| Frontend.GetStore | src/HacsFrontend.ts:365-367 | no contract of its own: segment 1 of the path; see Frontend.TabRoundTrip and Frontend.Dispatch |
| Frontend.GetRepository | src/HacsFrontend.ts:369-371 | no contract of its own: segment 2 of the path; see Frontend.RepositoryRoute |
| Frontend.ActiveTab | src/HacsFrontend.ts:412-415 | no contract of its own: see Frontend.TabRoundTrip and DefaultSegments |
| Frontend.RootPath | src/HacsFrontend.ts:417-420 | no contract of its own: see Frontend.RootOfPrefix and DefaultSegments |
| Frontend.IsDevelopment | src/HacsFrontend.ts:217-221 | no contract of its own: see Frontend.RootOfPrefix |
| Frontend.Dispatch | src/HacsFrontend.ts:312-359 | first match wins: exactly `/installed`, exactly `/settings`, any path holding `/repository` with segment 2 as the id, and every other path shows the store named by segment 1 |
| Frontend.ViewFor | src/HacsFrontend.ts:183-204 | the loader if and only if some data is missing; onboarding if and only if it is not done and HACS is not disabled; the dispatched page otherwise |
| Frontend.Shell.LocationChanged | src/HacsFrontend.ts:373-391 | a value starting with `/` becomes the prefix with an empty path, any other becomes the path `/<value>`; the browser navigates to prefix plus path, then reloads or redraws, then scrolls |
| Frontend.Shell.Render | src/HacsFrontend.ts:176-204 | an empty or missing path is redirected to `/installed` before the page is chosen |
| Frontend.Shell.RecreateHacs | src/HacsFrontend.ts:99-110 | each of configuration, repositories and status is taken from the shell unless null or empty, in which case the previous shared value stays |
| Frontend.Shell.HandlePageSelected | src/HacsFrontend.ts:402-410 | a selected tab is a location change without reload |
| Frontend.Shell.OnboardingDone | src/HacsFrontend.ts:393-400 | the flag is set, `onboarding_done` is sent and a redraw is requested |
| Frontend.TabRoundTrip | src/HacsFrontend.ts:365-415 | a tab `t` without `/` is the active tab and the store of the path `/<t>`, which names no repository |
| Frontend.RootOfPrefix | src/HacsFrontend.ts:417-420 | the root of the prefix `/<root>` is `<root>`; the development title shows exactly under `hacs_dev` |
| Frontend.DefaultSegments | src/HacsFrontend.ts:412-420 | without a second segment the active tab is `installed` and the root `hacs` |
| Frontend.RootRedirectShowsInstalled | src/HacsFrontend.ts:178-181 | the redirect target shows the installed page with its tab active |
| Frontend.RepositoryRoute | src/HacsFrontend.ts:336-340 | `/repository/<id>` shows the repository page for `<id>` |
| RepositoryPanel.WithId | src/legacy/panels/repository.ts:55-57 | the filter keeps exactly the repositories with the page's id |
| RepositoryPanel.FirstWithId | src/legacy/panels/repository.ts:54-58 | no selection if and only if no repository has the id; a selection is a listed repository with the id |
| RepositoryPanel.FirstWithIdIsFirst | src/legacy/panels/repository.ts:58 | of several repositories with the id, the earliest is selected |
| RepositoryPanel.FirstWithIdIsHead | src/legacy/panels/repository.ts:55-58 | the selection is element 0 of the filtered list |
| RepositoryPanel.BackPanel | src/legacy/panels/repository.ts:319-323 | no contract of its own: see RepositoryPanel.BackNavigationRoute |
| RepositoryPanel.BackLabelKey | src/legacy/panels/repository.ts:100-111 | no contract of its own: see RepositoryPanel.BackLabelNamesPanel |
| RepositoryPanel.CategoryLabel | src/legacy/panels/repository.ts:103-109 | `appdaemon` and `netdaemon` become `appdaemon_apps` and `netdaemon_apps`, any other category takes an `s`; every plural extends its category name |
| RepositoryPanel.BackLabelNamesPanel | src/legacy/panels/repository.ts:100-111 | the back label's key starts with `common.` and the store's name: `common.installed` when installed, `common.appdaemon_apps` and `common.netdaemon_apps` for the daemon stores, `common.<category>s` for any other category |
| RepositoryPanel.BackNavigationRoute | src/legacy/panels/repository.ts:317-331 | the location change raised by going back shows the installed page for an installed repository and the category's store otherwise |
| RepositoryPanel.Versions | src/legacy/panels/repository.ts:200-238 | a plain version if and only if there are no releases; otherwise the newest release labels a dropdown of the releases in order plus the default branch unless hidden or `hacs/integration` |
| RepositoryPanel.DropdownEntries | src/legacy/panels/repository.ts:220-234 | an entry is a release or the offered default branch, and each of those is an entry |
| RepositoryPanel.AdditionalInfo | src/legacy/panels/repository.ts:272-289 | the card exists if and only if the information is up to date, and renders `additional_info`, empty when unset, with the repository |
| RepositoryPanel.AdditionalInfoRenders | src/legacy/panels/repository.ts:277 | the card's markdown never fails, since the repository is passed |
| RepositoryPanel.Panel.ShouldUpdate | src/legacy/panels/repository.ts:51-68 | on a `hacs` change the record becomes the first with the page's id; the answer is whether `repo` or `lovelaceconfig` changed, counting the replacement |
| RepositoryPanel.Panel.FirstUpdated | src/legacy/panels/repository.ts:70-92 | stale information marks the record `other` and sends `set_state other` then `update`; without a record it throws and sends nothing |
| RepositoryPanel.Panel.SetRepositoryVersion | src/legacy/panels/repository.ts:294-315 | an empty choice sends nothing; otherwise `set_state other` then `set_version <value>` |
| RepositoryPanel.Panel.GoBackToStore | src/legacy/panels/repository.ts:317-331 | the id is cleared, the panel becomes the record's store and one location change carries it; without a record it throws after clearing the id |
| Menu.HelpUrl | src/legacy/components/menues/HacsMenu.ts:206-222 | segment 2 of the pathname picks the page: empty gives the getting-started fallback, a store category gives `stores`, anything else itself |
| Menu.HelpForPage | src/legacy/components/menues/HacsMenu.ts:209-221 | under `/<root>/<page>` the help page follows from `<page>` |
| Menu.HelpAtRoot | src/legacy/components/menues/HacsMenu.ts:209-213 | at `/<root>` the fallback opens |
| Menu.FeStyleAction | src/legacy/components/menues/HacsMenu.ts:107-114 | no contract of its own: see Menu.StyleToggles |
| Menu.FeCompactAction | src/legacy/components/menues/HacsMenu.ts:116-123 | no contract of its own: see Menu.CompactNamesFlag |
| Menu.StyleToggles | src/legacy/components/menues/HacsMenu.ts:107-114 | the action is `set_fe_table` unless the mode is `Table`, and `set_fe_grid` then: it always requests the view not shown |
| Menu.CompactNamesFlag | src/legacy/components/menues/HacsMenu.ts:116-123 | the action is `set_fe_compact_true` or `set_fe_compact_false` after the current flag, so it names that flag |
| Menu.ShowsUpgradeAll | src/legacy/components/menues/HacsMenu.ts:56 | no contract of its own: see Menu.InstalledTabItems |
| Menu.ShowsSwitches | src/legacy/components/menues/HacsMenu.ts:75-76 | no contract of its own: see Menu.InstalledTabItems and SwitchesHidden |
| Menu.InstalledTabItems | src/legacy/components/menues/HacsMenu.ts:56-93 | on the installed tab under a root without `g` or `p`, such as `hacs` and `hacs_dev`, both the upgrade-all item and the switches show |
| Menu.SwitchesHidden | src/legacy/components/menues/HacsMenu.ts:75-76 | a location holding `settings` or `repository` hides the switches |
| Menu.PendingUpgrades | src/legacy/components/menues/HacsMenu.ts:165-168 | the pending list is no longer than the list of repositories; its members and order are in Menu.PendingUpgradesMembers and PendingUpgradesConcat |
| Menu.PendingUpgradesMembers | src/legacy/components/menues/HacsMenu.ts:165-168 | the pending list holds exactly the repositories with an upgrade pending |
| Menu.PendingUpgradesConcat | src/legacy/components/menues/HacsMenu.ts:165-168 | collecting keeps the original order: the pending list of a concatenation is the concatenation of the pending lists |
| Menu.PendingUpgradesIdempotent | src/legacy/components/menues/HacsMenu.ts:165-168 | collecting again from the pending list changes nothing |
| Menu.UpgradeLinesCount | src/legacy/components/menues/HacsMenu.ts:171-173 | one line per pending repository |
| Menu.CollectPending | src/legacy/components/menues/HacsMenu.ts:165-168 | the `forEach`/`push` loop produces the pending list |
| Menu.UpgradeMessage | src/legacy/components/menues/HacsMenu.ts:170-174 | no contract of its own: see Menu.UpgradeText and UpgradeLinesCount |
| Menu.UpgradeText | src/legacy/components/menues/HacsMenu.ts:170-174 | the message loop produces the header, one line per repository and the closing question |
| Menu.HacsMenu.SetFeStyle | src/legacy/components/menues/HacsMenu.ts:107-114 | sends the style action for the current mode and nothing else changes |
| Menu.HacsMenu.SetFeCompact | src/legacy/components/menues/HacsMenu.ts:116-123 | sends the compact action for the current flag and nothing else changes |
| Menu.HacsMenu.ReloadData | src/legacy/components/menues/HacsMenu.ts:135-158 | during a background task only the notice shows; otherwise the confirmation shows and `reload_data` is sent only when confirmed |
| Menu.HacsMenu.UpgradeAll | src/legacy/components/menues/HacsMenu.ts:160-193 | during a background task only the notice; with pending upgrades the message and `upgrade_all` only when confirmed; with none the `no_upgrades` notice and nothing sent |
| Changelog.ChangelogUrl | src/components/buttons/HacsButtonChangelog.ts:9-16 | no link without a pending upgrade; the compare view between installed and available for commit-tracked repositories, the releases page otherwise |
| Changelog.ChangelogUnderRepository | src/components/buttons/HacsButtonChangelog.ts:12-16 | every link lies under the repository's own GitHub page |
| Changelog.ChangelogButton.RepositoryInstall | src/components/buttons/HacsButtonChangelog.ts:27-35 | `set_state installing` then `uninstall`, both for the button's repository |

## Left out

- Library internals: node-emoji, marked, the XSS filter and highlight.js are foreign code. They are function-valued fields of `Markdown.Libraries`, and `getLanguage` is a `resolve` function plus the registered list.
- The DOM: `Markdown.Html` returns the string that is assigned to `innerHTML`. The created `div`, its `style.cssText` and the lit template around it are not modelled. No lit `html` template or `styles` block is modelled.
- The regex engine in general: only the three patterns of `markdown.ts` are modelled, each by its own matcher.
- `$` patterns in replacement strings are not interpreted. The replacement strings the source uses hold none, except through repository names, which cannot contain `$`.
- Backend, async and I/O: websocket messages and dispatched DOM events are appended to sequences. `swal` dialogs are appended to a sequence, and the user's answer is the `confirmed` parameter. `localize` is a function parameter. `window.location`, `navigate`, `reload` and `scrollToTarget` become `ShellEffect`s. This leaves out `window.open`, `onpopstate`, `localStorage` and the websocket subscriptions and fetches of `connectedCallback` and `firstUpdated` in `HacsFrontend.ts`.
- Frontend.Shell.LocationChanged: debug logging is left out. The source reads `configuration.debug` first, so the methods require a loaded configuration.
- Frontend.Shell.HandlePageSelected: the same debug read applies, so the method requires a loaded configuration.
- Frontend.Shell.RecreateHacs: `isnullorempty` is not part of this model. It is read as absent, or present and empty for the repository list.
- RepositoryPanel.Panel.ShouldUpdate: `JSON.stringify` equality is modelled as value equality of records. The lit changed-property map is a set of names, to which the assignment of `repo` adds `repo` when the record changes.
- Patterns.BlobMatchAt: text is a sequence of Unicode scalar values, while the source's regexes (without the `u` flag) work on UTF-16 code units. A character outside the Basic Multilingual Plane, such as an emoji produced by the emoji stage, is one character here and two units there, so the single-character steps of the three patterns (`.` and `[^\s]` after `/blo`, the `.` before `">` and `</a>`) can differ on such text. For example, `/blo` followed only by one emoji is a blob match in the source but not in the model.
- RepositoryPanel.Panel.FirstUpdated: in the source the record is shared with the entry in `hacs.repositories`. The model updates only the page's copy, so the aliasing is not captured.
- Frontend.Shell.OnboardingDone: in the source the shared `Hacs` object may hold the same configuration object as the shell, so setting `onboarding_done` would show through `hacs.configuration` too. The `Hacs` class is not part of this model; the model keeps `hacs` unchanged, so that aliasing is not captured.
- The rest of the repository page's `render` (buttons, notes and the loader) is not modelled beyond the back label, the versions and the additional-information card.
- `ReloadWindow`, `disabledAction`'s dialog text and `openAbout` in `HacsMenu.ts` are not modelled beyond the notice dialog.
- `HacsButtonOpenRepository.ts`, the about dialog and the generic dialog are not part of this model.
- PatternLemmas.AnchorMatchToEnd: the shape of a matched anchor is stated by positions in the text (where `">` and `</a>` are), not as a concatenation of href, content and trailing parts.
