# Orphaned HelmRelease finder, modelled in Dafny

`find-orphaned-helmreleases.py` finds FluxCD HelmReleases that a Kustomization
once applied but no longer lists, and optionally walks the operator through
deleting them. This project models its three working parts and proves what
they guarantee.

- **Inventory keys** (`Inventory`). Every Kustomization's
  `status.inventory.entries` lists the objects it manages by an id of the form
  `<namespace>_<name>_<group>_<kind>`. An id counts when it contains both
  `_HelmRelease` and `helm.toolkit.fluxcd.io`. Such an id is split on `_`, and
  its first two pieces give the key `namespace/name`. The managed set is the
  set of all these keys. `DecodeEntryId` and `ManagedSet` are the specification
  functions. The method `GetManagedHelmReleasesFromInventory` is the program's
  pair of nested loops, proved equal to `ManagedSet`.
- **Orphan detection** (`Detector`). A HelmRelease is an orphan when both
  labels `kustomize.toolkit.fluxcd.io/name` and `.../namespace` are present and
  non-empty, and its `namespace/name` is not managed. Each orphan becomes a
  record carrying the two label values. `Orphans` is the specification
  function. The loop method `FindOrphanedHelmReleases` is proved equal to it.
- **Interactive cleanup** (`Cleanup`). The orphans are grouped by namespace and
  the namespaces are walked in sorted order.
  - At each namespace the operator answers `y` (delete all), `n` (skip all),
    `s` (ask per release: `y`, `n` or `q`) or `q` (abort).
  - Answers are lower-cased and stripped first. Anything else repeats the
    prompt.
  - `deleted_count` and `skipped_count` are kept along the way. A failed delete
    counts as skipped.
  - The specification is a small-step machine. `NamespaceStep` and
    `ResourceStep` say what one answer does, `Step` picks between them, and
    `Run` feeds the answers until the walk finishes or they run out.
  - The method `CleanupOrphansInteractive` follows the program's own loops
    (the grouping loop, the sort, and `for` / `while True` over namespaces
    and releases). It is proved to return exactly `Cleanup(orphans, inputs,
    delete)`. `CleanupGuarantees` then proves what the walk promises.

The operator's console is a finite sequence `inputs` of typed lines, consumed
front to back. The cluster's delete call (`delete_helmrelease`) is a function
`delete(namespace, name)` that tells whether the deletion succeeded. The
cleanup returns a `CleanupReport`:

- every delete call made, with its result;
- the two counters;
- how many answers were read;
- the `Outcome`:
  - `NothingToClean`;
  - `Completed`;
  - `AbortedAtNamespace`, carrying the deleted and skipped numbers of the printed summary;
  - `AbortedInSelect`;
  - `InputExhausted`.

Files:
- `wrappers.dfy`: `Option`.
- `text.dfy`: Python's `in` on strings, `split`/`join`, `lower`/`strip`, and string order with sorted insertion.
- `seqs.dfy`: subsequences and flattening of groups.
- `inventory.dfy`.
- `detector.dfy`.
- `cleanup.dfy`.

## Model

| member | source | states |
|---|---|---|
| Inventory.Entries | find-orphaned-helmreleases.py:63-64 | `status.inventory.entries` of a Kustomization, empty when `status`, `inventory` or `entries` is absent |
| Inventory.EntryId | find-orphaned-helmreleases.py:68 | An entry's `id`, the empty string when absent |
| Inventory.NamesHelmRelease | find-orphaned-helmreleases.py:72 | The guard: the id contains both `_HelmRelease` and `helm.toolkit.fluxcd.io` |
| Inventory.ReleaseKey | find-orphaned-helmreleases.py:79 | The key `namespace/name` formed from a namespace and a name |
| Inventory.DecodeEntryId | find-orphaned-helmreleases.py:68-79 | An entry id yields a key exactly when it contains both `_HelmRelease` and `helm.toolkit.fluxcd.io`; the `len(parts) >= 2` guard never fails once the kind marker is present |
| Inventory.DecodeLeadingTokens | find-orphaned-helmreleases.py:74-79 | An id that starts with a `_`-free namespace and name, then `_`, yields the key `namespace/name`, whatever follows |
| Inventory.DecodeEncode | find-orphaned-helmreleases.py:70-79 | Decoding the id `<ns>_<name>_helm.toolkit.fluxcd.io_HelmRelease` gives back `ns/name` when neither part holds `_` |
| Inventory.SeparatorInNameTruncates | find-orphaned-helmreleases.py:74-78 | A release whose name holds `_` is recorded under the key of the name's first segment, which differs from its real key |
| Inventory.EntryKeys | find-orphaned-helmreleases.py:64-79 | The keys that one Kustomization's inventory entries decode to; its properties are stated by `EntryKeysMembers` |
| Inventory.Declares | find-orphaned-helmreleases.py:59-79 | A Kustomization lists an entry decoding to the given key |
| Inventory.ManagedSet | find-orphaned-helmreleases.py:57-81 | The union of the entry keys of all Kustomizations; its properties are stated by `ManagedSetMembers` and `ManagedSetOrderIndependent` |
| Inventory.EntryKeysMembers | find-orphaned-helmreleases.py:64-79 | A key comes from a Kustomization's entries exactly when one of its entries decodes to it |
| Inventory.ManagedSetMembers | find-orphaned-helmreleases.py:57-81 | A key is managed exactly when some Kustomization lists an entry that decodes to it |
| Inventory.ManagedSetOrderIndependent | find-orphaned-helmreleases.py:57-81 | The managed set depends only on which Kustomizations there are, not on their order or repetitions |
| Inventory.AbsentInventoryContributesNothing | find-orphaned-helmreleases.py:63-64 | A Kustomization without `status`, `inventory` or `entries` adds no key wherever it stands |
| Inventory.ManagedSetOfOne | find-orphaned-helmreleases.py:59-79 | One Kustomization's managed set is the key set of its entries |
| Inventory.EntryKeysOfEncoded | find-orphaned-helmreleases.py:66-79 | An entry written by Flux for a release contributes exactly that release's key |
| Inventory.ManagedSetOfOneEntry | find-orphaned-helmreleases.py:57-81 | A Kustomization listing one release manages exactly that release |
| Inventory.GetManagedHelmReleasesFromInventory | find-orphaned-helmreleases.py:52-81 | The nested loops return `ManagedSet` of the Kustomizations: a key is returned iff some Kustomization lists an entry decoding to it |
| Text.Contains | find-orphaned-helmreleases.py:72 | Python's `pat in s`: the pattern occurs at some position of the string |
| Text.ContainsHead | find-orphaned-helmreleases.py:72 | A string containing a non-empty pattern contains the pattern's first character |
| Text.ContainsPlaced | find-orphaned-helmreleases.py:72 | A pattern placed between two strings is found by `in` |
| Text.Split | find-orphaned-helmreleases.py:74 | `entry_id.split("_")`: the pieces between separators, always at least one; its round trip with `Join` is stated by `JoinSplit` and `SplitJoin` |
| Text.SplitAtSeparator | find-orphaned-helmreleases.py:74-75 | A string holding `_` splits into at least two pieces |
| Text.JoinSplit | find-orphaned-helmreleases.py:74 | Joining the pieces of `split` with the separator gives back the string |
| Text.SplitJoin | find-orphaned-helmreleases.py:74 | Splitting a join of separator-free pieces gives back the pieces |
| Text.SplitNoSeparator | find-orphaned-helmreleases.py:74 | A string without the separator splits into itself alone |
| Text.SplitLeadingToken | find-orphaned-helmreleases.py:74-78 | A separator-free token followed by the separator is split off as the first piece |
| Text.Lower | find-orphaned-helmreleases.py:232 | `lower()` keeps the length and maps every character by `LowerChar` |
| Text.IsSpace | find-orphaned-helmreleases.py:232 | The characters `strip()` removes: exactly those for which Python's `isspace()` holds |
| Text.LowerChar | find-orphaned-helmreleases.py:232 | `lower()` on one character, for ASCII capitals only: an ASCII capital becomes its small letter and every other character is kept, whereas Python also lower-cases other cased letters such as `É` or `Σ` (see "## Left out") |
| Text.StripLeft | find-orphaned-helmreleases.py:232 | The left half of `strip()`: leading white space removed; stated by `StripLeftDrops` |
| Text.StripRight | find-orphaned-helmreleases.py:232 | The right half of `strip()`: trailing white space removed; stated by `StripRightKeeps` |
| Text.Strip | find-orphaned-helmreleases.py:232 | `strip()`: white space removed at both ends |
| Text.Normalize | find-orphaned-helmreleases.py:258-260 | `.lower().strip()` applied to an answer, with lowering of ASCII capitals only (see "## Left out"); stated by `NormalizePadded` and `NormalizeSingle` |
| Text.StripLeftDrops | find-orphaned-helmreleases.py:232 | Stripping on the left removes exactly a maximal run of leading white space |
| Text.StripRightKeeps | find-orphaned-helmreleases.py:232 | Stripping on the right removes exactly a maximal run of trailing white space |
| Text.StripLeftPadding | find-orphaned-helmreleases.py:232 | White space in front of a non-space character is removed |
| Text.StripRightPadding | find-orphaned-helmreleases.py:232 | White space after a non-space character is removed |
| Text.NormalizePadded | find-orphaned-helmreleases.py:258-260 | One non-space character padded with white space normalises to that character lower-cased |
| Text.NormalizeSingle | find-orphaned-helmreleases.py:258-260 | An answer normalising to one character is that character, in either case, among white space |
| Text.StrLess | find-orphaned-helmreleases.py:210 | Python's `<` on strings, which `sorted()` uses: lexicographic by code point, a proper prefix first; its order laws are the four lemmas below |
| Text.StrLessIrreflexive | find-orphaned-helmreleases.py:210 | No string sorts before itself |
| Text.StrLessTransitive | find-orphaned-helmreleases.py:210 | String order is transitive |
| Text.StrLessTotal | find-orphaned-helmreleases.py:210 | Two different strings are ordered one way or the other |
| Text.StrLessAsymmetric | find-orphaned-helmreleases.py:210 | String order is asymmetric |
| Text.InsertSorted | find-orphaned-helmreleases.py:210 | Inserting a new string into a strictly ascending sequence keeps it strictly ascending, adds exactly that string |
| Text.SortedUnique | find-orphaned-helmreleases.py:210 | Two strictly ascending sequences with the same elements are equal, so `sorted` has one answer |
| Detector.MetadataOf | find-orphaned-helmreleases.py:117 | `hr.get("metadata", {})`: the release's metadata, empty when absent |
| Detector.NameOf | find-orphaned-helmreleases.py:118 | `metadata.get("name", "")`: the release's name, the empty string when absent |
| Detector.NamespaceOf | find-orphaned-helmreleases.py:119 | `metadata.get("namespace", "")`: the release's namespace, the empty string when absent |
| Detector.LabelsOf | find-orphaned-helmreleases.py:120 | `metadata.get("labels", {})`: the release's labels, empty when absent |
| Detector.Label | find-orphaned-helmreleases.py:123-124 | `labels.get(key)`: the label's value when present, nothing otherwise |
| Detector.Truthy | find-orphaned-helmreleases.py:127 | Python truthiness of a label lookup: present and not the empty string |
| Detector.HasKustomizeLabels | find-orphaned-helmreleases.py:123-127 | Both Kustomization labels are present and non-empty (Python truthiness of the two lookups) |
| Detector.IsOrphan | find-orphaned-helmreleases.py:123-131 | A release is an orphan when both labels are present and non-empty and its `namespace/name` is not managed |
| Detector.RecordOf | find-orphaned-helmreleases.py:132-139 | The record appended for an orphan: its name and namespace, the two label values, its labels and the release itself; stated by `RecordCarriesLabels` |
| Detector.Orphans | find-orphaned-helmreleases.py:114-141 | The records of the orphans in input order; stated by `OrphansMembers` and `OrphansInInputOrder` |
| Detector.OrphansMembers | find-orphaned-helmreleases.py:116-139 | A record is reported iff its release is in the input, carries both labels non-empty, its `namespace/name` is not managed, and the record is built from that release |
| Detector.RecordCarriesLabels | find-orphaned-helmreleases.py:123-137 | A reported record's kustomization name and namespace are the two label values, both non-empty, and its name and namespace are the release's |
| Detector.OrphansInInputOrder | find-orphaned-helmreleases.py:114-141 | The reported releases are a subsequence of the input: input order, each at most once |
| Detector.UnlabelledNeverReported | find-orphaned-helmreleases.py:127 | A release lacking either label is never reported, whatever is managed |
| Detector.EmptyInventoryReportsAllLabelled | find-orphaned-helmreleases.py:127-131 | With nothing managed, every release carrying both labels is reported |
| Detector.MoreManagedFewerOrphans | find-orphaned-helmreleases.py:131 | A larger managed set reports a subsequence of what a smaller one reports |
| Detector.FindOrphanedHelmReleases | find-orphaned-helmreleases.py:105-141 | The loop returns `Orphans` of its input, with the membership characterisation of `OrphansMembers` |
| Detector.ListedReleaseIsNotOrphan | find-orphaned-helmreleases.py:128-131 | A labelled release listed under the id Flux writes for it is not reported |
| Detector.UnlistedReleaseIsOrphan | find-orphaned-helmreleases.py:127-139 | With an empty inventory the labelled release is reported with its owner taken from the labels |
| Detector.TeamAWebReleaseScenarios | find-orphaned-helmreleases.py:127-139 | `teamA/web-release` listed by its inventory is not reported; unlisted it is reported once |
| Detector.ReleaseWithoutLabelsIsNotOrphan | find-orphaned-helmreleases.py:120-127 | A release without labels is never reported |
| Cleanup.InNamespace | find-orphaned-helmreleases.py:206-208 | `by_namespace[ns]`: the orphans of one namespace in list order; stated by `InNamespaceMembers` and `InNamespaceInOrder` |
| Cleanup.InNamespaces | find-orphaned-helmreleases.py:206-208 | The orphans whose namespace is in a given set, in list order; none for the empty set |
| Cleanup.GroupsFor | find-orphaned-helmreleases.py:206-210 | The groups of the given namespaces, in the order given |
| Cleanup.Groups | find-orphaned-helmreleases.py:205-210 | The groups in the order the walk visits them: one per sorted namespace; stated by `GroupsPermutation` and `GroupsShape` |
| Cleanup.SortedNamespaces | find-orphaned-helmreleases.py:210 | The walk's namespaces are strictly ascending and are exactly the namespaces of the orphans |
| Cleanup.InNamespaceMembers | find-orphaned-helmreleases.py:206-208 | A namespace's group holds exactly the orphans of that namespace |
| Cleanup.InNamespaceInOrder | find-orphaned-helmreleases.py:206-208 | A namespace's group keeps the list order |
| Cleanup.InNamespaceEmpty | find-orphaned-helmreleases.py:206-208 | A namespace's group is empty exactly when no orphan lives there |
| Cleanup.GroupsPermutation | find-orphaned-helmreleases.py:205-223 | Walking the groups one after the other visits every orphan exactly once (same multiset and length) |
| Cleanup.GroupsShape | find-orphaned-helmreleases.py:206-223 | Groups follow strictly ascending namespaces; none is empty; each is its namespace's orphans in list order |
| Cleanup.FlattenGroupsAscend | find-orphaned-helmreleases.py:222-223 | The walk meets the namespaces in ascending order and only namespaces of the orphans |
| Cleanup.NamespaceCommand | find-orphaned-helmreleases.py:234-280 | What a normalised answer does at a namespace prompt: `q`, `y`, `n`, `s`, anything else invalid |
| Cleanup.ResourceCommand | find-orphaned-helmreleases.py:262-276 | What a normalised answer does at a release prompt: `q`, `y`, `n`, anything else invalid |
| Cleanup.NamespaceChoice | find-orphaned-helmreleases.py:232 | An answer typed at a namespace prompt, lower-cased and stripped, then compared |
| Cleanup.ResourceChoice | find-orphaned-helmreleases.py:258-260 | An answer typed at a release prompt, lower-cased and stripped, then compared |
| Cleanup.Answers | find-orphaned-helmreleases.py:232 | The typed answers as the program compares them, each lower-cased and stripped |
| Cleanup.RecognisedIsPaddedLetter | find-orphaned-helmreleases.py:232-253 | A namespace answer that is acted on is one of `y n s q`, in either case, with only white space around it |
| Cleanup.PaddedLetterIsRecognised | find-orphaned-helmreleases.py:232-253 | Any such padded letter is acted on |
| Cleanup.NamespaceChoiceRecognised | find-orphaned-helmreleases.py:232-253 | Both directions: a namespace prompt acts on an answer iff it is one of `y n s q`, either case, padded with white space only |
| Cleanup.RecognisedAtResourceIsPaddedLetter | find-orphaned-helmreleases.py:258-276 | A release answer that is acted on is one of `y n q`, in either case, with only white space around it |
| Cleanup.PaddedLetterIsRecognisedAtResource | find-orphaned-helmreleases.py:258-276 | Any such padded letter is acted on at a release prompt |
| Cleanup.ResourceChoiceRecognised | find-orphaned-helmreleases.py:258-276 | Both directions: a release prompt acts on an answer iff it is one of `y n q`, either case, padded with white space only; `s` and everything else repeat the prompt |
| Cleanup.DeleteOne | find-orphaned-helmreleases.py:265-269 | One delete call: the call and its result are recorded, a success adds one to `deleted_count`, a failure one to `skipped_count`; stated by `DeleteOneEffect` |
| Cleanup.DeleteAll | find-orphaned-helmreleases.py:241-245 | The delete calls for a whole namespace, in list order; stated by `DeleteAllEffect` |
| Cleanup.NamespaceStep | find-orphaned-helmreleases.py:234-280 | What an answer does at a namespace prompt: `q` stops with the summary, `y` deletes the group, `n` skips it, `s` moves to its first release, anything else asks again |
| Cleanup.ResourceStep | find-orphaned-helmreleases.py:262-276 | What an answer does at a release prompt: `q` stops, `y` deletes the release, `n` skips it, anything else asks again; after the last release the next namespace follows |
| Cleanup.Step | find-orphaned-helmreleases.py:231-280 | One answer at the current prompt, namespace or release |
| Cleanup.Run | find-orphaned-helmreleases.py:222-280 | The walk: answers are fed in order until it finishes or they run out |
| Cleanup.Cleanup | find-orphaned-helmreleases.py:199-286 | The whole cleanup: nothing for no orphans, else the walk from the first namespace; stated by `CleanupGuarantees` |
| Cleanup.DeleteOneEffect | find-orphaned-helmreleases.py:265-269 | One delete call records its orphan and result, adds one to `deleted_count` on success or to `skipped_count` on failure, and keeps the count of successes |
| Cleanup.DeleteAllEffect | find-orphaned-helmreleases.py:241-245 | Deleting a whole namespace makes one call per orphan in list order and moves each to deleted or skipped |
| Cleanup.AbortTotals | find-orphaned-helmreleases.py:236 | The orphans before namespace `i` and those from `i` on add up to all orphans |
| Cleanup.DeleteNamespaceKeepsInv | find-orphaned-helmreleases.py:239-246 | `y` at a namespace keeps the walk's invariant |
| Cleanup.SkipNamespaceKeepsInv | find-orphaned-helmreleases.py:248-251 | `n` at a namespace keeps the invariant |
| Cleanup.SelectNamespaceKeepsInv | find-orphaned-helmreleases.py:253-277 | `s` at a namespace keeps the invariant |
| Cleanup.QuitAtNamespaceKeepsInv | find-orphaned-helmreleases.py:234-237 | `q` at a namespace keeps the invariant: the printed totals cover every orphan |
| Cleanup.QuitAtResourceKeepsInv | find-orphaned-helmreleases.py:262-264 | `q` at a release keeps the invariant: the counters account for exactly the orphans before that release |
| Cleanup.DeleteResourceKeepsInv | find-orphaned-helmreleases.py:265-270 | `y` at a release keeps the invariant |
| Cleanup.SkipResourceKeepsInv | find-orphaned-helmreleases.py:271-274 | `n` at a release keeps the invariant |
| Cleanup.NamespaceStepKeepsInv | find-orphaned-helmreleases.py:231-280 | Every answer at a namespace prompt keeps the invariant |
| Cleanup.ResourceStepKeepsInv | find-orphaned-helmreleases.py:257-276 | Every answer at a release prompt keeps the invariant |
| Cleanup.StepKeepsInv | find-orphaned-helmreleases.py:231-280 | Every answer keeps the invariant |
| Cleanup.PassedPrefix | find-orphaned-helmreleases.py:222-276 | Counters covering the orphans passed before a prompt count a prefix of the walk, and the delete calls lie inside it |
| Cleanup.StoppedReportInv | find-orphaned-helmreleases.py:232-264 | A walk stopped by `q` at a namespace, by `q` at a release, or for want of answers, reports counters that cover exactly the orphans passed before that prompt |
| Cleanup.FinishedReportInv | find-orphaned-helmreleases.py:234-286 | A walk that finished, completed or aborted, reports what its invariant kept |
| Cleanup.ExhaustedReportInv | find-orphaned-helmreleases.py:232-260 | A walk that runs out of answers at a prompt reports the orphans passed before it |
| Cleanup.RunKeepsInv | find-orphaned-helmreleases.py:222-286 | A walk started in the invariant returns a report whose count of deletions is the successful calls, whose calls follow the walk, and whose counters cover exactly the orphans walked past, for every outcome |
| Cleanup.RunConsumes | find-orphaned-helmreleases.py:222-280 | The walk reads answers from the current position on and no further than the last |
| Cleanup.FinishedRunStops | find-orphaned-helmreleases.py:262-264 | Once the walk has stopped, no further answer is read and no delete call made |
| Cleanup.InvalidAnswerReprompts | find-orphaned-helmreleases.py:275-280 | An unrecognised answer changes nothing and the same prompt is asked again |
| Cleanup.CleanupGuarantees | find-orphaned-helmreleases.py:199-286 | See below |
| Cleanup.GroupsOfOne | find-orphaned-helmreleases.py:206-210 | A single orphan makes a single group |
| Cleanup.YesDeletesTheOnlyOrphan | find-orphaned-helmreleases.py:232-246 | ` Y` for a lone orphan deletes it and completes with one deletion |
| Cleanup.QuitAtFirstNamespace | find-orphaned-helmreleases.py:234-237 | `q` at the first of two namespaces deletes nothing and reports 0 deleted, 2 skipped |
| Cleanup.SelectThenQuit | find-orphaned-helmreleases.py:253-264 | `s` then `q` for a lone orphan stops at the release prompt with no delete call |
| Cleanup.AnswersSelectQuit | find-orphaned-helmreleases.py:258-260 | The answers `s`, `Q` are compared as `s`, `q` |
| Cleanup.QuitWhileSelecting | find-orphaned-helmreleases.py:253-264 | The whole cleanup of one orphan answered `s`, `Q` ends in the select abort after two answers |
| Cleanup.YesThenQuitRun | find-orphaned-helmreleases.py:234-246 | `y` then `q` over two namespaces ends with the first namespace's delete calls and the abort summary |
| Cleanup.YesThenQuit | find-orphaned-helmreleases.py:234-246 | In that walk every orphan of the first namespace gets one call, none of the second, and the summary counts the second as skipped |
| Cleanup.SelectYesNoYesRun | find-orphaned-helmreleases.py:253-277 | `s`, `y`, `n`, `y` over three orphans completes after the calls for the first and third |
| Cleanup.SelectYesNoYes | find-orphaned-helmreleases.py:253-277 | In that walk only the first and the third get a delete call, the second is skipped, and the totals add up to three |
| Cleanup.SortNamespaces | find-orphaned-helmreleases.py:210 | `sorted(keys)`: strictly ascending, holding exactly the keys |
| Cleanup.GroupByNamespace | find-orphaned-helmreleases.py:206-208 | `by_namespace` has exactly the orphans' namespaces as keys, each mapped to its orphans in list order |
| Cleanup.SortedMapIsGroups | find-orphaned-helmreleases.py:206-210 | Reading the map in sorted key order gives the walk's groups |
| Cleanup.CountRemaining | find-orphaned-helmreleases.py:236 | The sum of group sizes from the current namespace on is the number of orphans not yet walked past |
| Cleanup.DeleteGroup | find-orphaned-helmreleases.py:241-245 | The `y` loop makes the calls and counter updates of `DeleteAll` |
| Cleanup.PromptResource | find-orphaned-helmreleases.py:257-276 | The per-release prompt loop either stops the walk with the report `Run` gives, or returns the state `Run` continues from at the next release |
| Cleanup.AnsweredAtResource | find-orphaned-helmreleases.py:258-276 | Reading one answer at a release prompt continues the walk from what the answer does |
| Cleanup.SelectResources | find-orphaned-helmreleases.py:253-277 | The `s` loop over a namespace's releases stops the walk as `Run` does or continues at the next namespace |
| Cleanup.PromptNamespace | find-orphaned-helmreleases.py:231-280 | The namespace prompt loop stops the walk with `Run`'s report or returns the state `Run` continues from at the next namespace |
| Cleanup.AnsweredAtNamespace | find-orphaned-helmreleases.py:232-280 | Reading one answer at a namespace prompt continues the walk from what the answer does |
| Cleanup.WalkNamespaces | find-orphaned-helmreleases.py:222-280 | The loop over the sorted namespaces returns the report of `Run` from the first namespace |
| Cleanup.CleanupOrphansInteractive | find-orphaned-helmreleases.py:199-286 | The whole method returns `Cleanup(orphans, inputs, delete)`, and with it the guarantees below |

`CleanupGuarantees`, and with it `CleanupOrphansInteractive`, states the
following, whatever the answers and whatever the delete calls return:

- With no orphans, nothing is asked and no call is made.
- `deleted_count` is the number of successful delete calls, and each recorded
  result is what the call returned.
- Delete calls are made only for listed orphans, each at most once. They come
  in ascending namespace order and, within a namespace, in list order.
- On completion, `deleted_count + skipped_count` is the number of orphans.
- A `q` at a namespace prompt prints the current `deleted_count`, and the
  printed deleted and skipped numbers add up to the number of orphans.
- Whatever the outcome, `deleted_count + skipped_count` is at most the number
  of orphans. It is exactly the number of orphans the walk passed, in walk
  order, and every delete call was made for one of them.
- A `q` at a release prompt, or answers running out, leaves the counters
  covering exactly the orphans before that prompt.
- No more answers are read than were given.

## Left out

- `run_kubectl`, `get_all_kustomizations` and `get_all_helmreleases` are subprocess and JSON plumbing. Their results are the input sequences of the model. A failed fetch returning `[]` is an empty input.
- `delete_helmrelease` runs `kubectl delete`. It is the parameter `delete`, a function of namespace and name giving success. Its console messages are not modelled.
- `print_orphans_table`, `print_orphans_json`, `print_orphans_yaml`, the banners and all other printed text are not modelled. Only the counters, the printed abort summary and the outcome are returned.
- `main` and the argument parsing are not modelled. `main` calls the cleanup only for a non-empty orphan list; the model also covers the empty list.
- `input()` blocks on the console. It is a finite sequence of typed lines. Running out of lines ends the walk with `InputExhausted`, standing for the `EOFError` the program does not catch. `KeyboardInterrupt` is not modelled.
- Text.LowerChar: lower-cases ASCII capitals only, not Python's full Unicode case mapping (`É` to `é`, `Σ` to `σ`, and mappings that change the length). No other character lower-cases to `y`, `n`, `s` or `q`, so which answers are acted on is the same.
- Text.Lower: lower-cases character by character with `Text.LowerChar`, so it has the same ASCII-only gap.
- Text.Normalize: lower-cases with `Text.Lower`, so it has the same gap; its stripping uses `Text.IsSpace`, the set of characters for which Python's `isspace()` holds.
- JSON values of the wrong type, and explicit `null` where the program calls `.get` on the result, are not modelled. Fields are either present with the right type or absent.
- The `labels` of a record and its `raw` release are carried as values; their JSON payload beyond `metadata` is not interpreted.
- The unused locals `ks_name` and `ks_namespace` in the inventory loop are not modelled.
- The program's option line (find-orphaned-helmreleases.py:217) spells the answers `[y]es`, `[n]o`, `[s]elect` and `[q]uit`. The code compares the lower-cased, stripped answer with the single letters `y`, `n`, `s`, `q` only (find-orphaned-helmreleases.py:234-280). The model follows the code: `yes` is an invalid answer and repeats the prompt.
- The ambiguity of `_` inside namespaces and names in inventory ids is kept as the code has it, not repaired. `SeparatorInNameTruncates` shows its effect. Kubernetes object names cannot hold `_`, so this does not arise for real objects.
