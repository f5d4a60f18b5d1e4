# Version-compatibility resolver of the avalanche-cli end-to-end tests

The end-to-end tests run network scenarios that mix releases of Subnet-EVM
(the plugin) and AvalancheGo (the host). `GetVersionMapping` chooses which
releases each scenario uses. It reads two compatibility tables:

- the **plugin table**: Subnet-EVM version -> RPC protocol version;
- the **host table**: protocol version written in decimal -> the AvalancheGo
  releases that speak it.

From them it fills a mapping from scenario keys to versions, step by step:

1. `getVersions` lists the plugin versions in descending string order. The
   first, the greatest string, is dropped: the intent is to drop the
   upcoming release, which may be announced before it can be downloaded.
2. The host-table keys are parsed with `strconv.Atoi` and sorted into
   descending integer order.
3. Multi-host scan: take the first (that is, the largest) protocol with more
   than one host. Record its two greatest hosts, and the first remaining
   plugin version that speaks that protocol.
4. The host-only scenario is always `"latest"`.
5. Solo scan: walk adjacent pairs of the remaining plugin versions.
   - A pair whose protocols differ fills the "latest" keys, but only while
     those keys still read as empty.
   - The first pair sharing a protocol becomes the solo pair, and the walk stops.
   - Reaching the last version without such a pair is an error.
   - The newest-host lookup for the first version's protocol comes before the
     comparison, and its failure aborts the walk.
6. The mapping is memoized in a package variable. It is stored before step 2
   can fail, so a failed call still leaves it for later calls. A later call
   returns that partial mapping with no error: a failure turns into a later
   success. After a malformed host-table key, for example, the memo is empty,
   so the next call succeeds with a mapping in which even the host-only
   scenario reads as empty.

The Dafny files:

- `wrappers.dfy` (`Wrappers`): `Option` and `Result`.
- `strconv.dfy` (`Strconv`): Go's `Atoi` and `Itoa` on a 64-bit platform.
- `ordering.dfy` (`Ordering`): integer and byte-wise string order. `SortDesc`
  is a functional descending sort. `SortDescending` is the in-place array sort
  standing for `sort.Sort(sort.Reverse(...))`, proved equal to `SortDesc`.
- `versions.dfy` (`Versions`): the data model and one method per step, each
  proved equal to a specification function. `Resolve` composes them; the
  class `VersionCache` holds the memo.
- `properties.dfy` (`VersionProperties`): what the resolver promises, proved
  about the specification functions, then lifted to whole calls.

Go map iteration order is unspecified. Wherever the code ranges over a map,
the model takes the iteration order as a parameter constrained only to list
each key once, so every property holds for every order.

Facts about the code that the model keeps:

- **Order.** The final sorts (tests/e2e/utils/versions.go:63 and :130) use
  byte-wise string order. It overrides the earlier `semver.Sort`, so
  `"v1.9.0"` ranks above `"v1.10.0"`. The version truncation drops is
  therefore the greatest string, not always the newest release. Of
  `"v0.5.9"`, `"v0.5.10"` and `"v0.5.11"` it drops `"v0.5.9"` and keeps
  `"v0.5.11"` selectable (`VersionProperties.TruncationKeepsHighestRelease`).
- **Short plugin tables.**
  - An empty plugin table panics at the slice `[1:]` (line 38). Here that is
    a precondition.
  - A one-entry table leaves nothing after truncation, so the pair loop never
    runs and the call succeeds without solo keys.
  - A two-entry table leaves one version, so the loop reaches the last
    element at once and returns the "no compatible versions" error (line 83).
- **Table errors.** Downloading and decoding either table can fail
  (lines 32-35 and 40-43). The model has one error kind for both,
  `LoadFailed`, carrying the message.

## Model

| member | source | states |
|---|---|---|
| Strconv.Atoi | tests/e2e/utils/versions.go:50-53 | a parsed key lies in the 64-bit signed range and starts with a digit or a sign |
| Strconv.AtoiExactly | tests/e2e/utils/versions.go:50-53 | `Atoi(s)` is `n` exactly when `s` is an optional sign (a minus only for `n <= 0`), any number of zeros, then the canonical digits of the magnitude of `n`, with `n` in the 64-bit range; every other string is rejected |
| Strconv.SpellsParses | tests/e2e/utils/versions.go:50-53 | every such spelling of an in-range `n` parses to `n` |
| Strconv.ParsedSpells | tests/e2e/utils/versions.go:50-53 | every accepted key is such a spelling of the integer it parses to |
| Strconv.DigitsCanonical | tests/e2e/utils/versions.go:50-53 | every digit string is leading zeros followed by the canonical digits of its value |
| Strconv.AtoiItoa | tests/e2e/utils/versions.go:59-60 | rendering a parsed protocol with `Itoa` and parsing it again gives the same protocol |
| Strconv.ItoaInjective | tests/e2e/utils/versions.go:59-60 | distinct protocols are looked up under distinct keys |
| Strconv.NonCanonicalKeys | tests/e2e/utils/versions.go:50-60 | keys such as "07", "+7" and "-0" parse, but render back as a different key |
| Strconv.AtoiRejects | tests/e2e/utils/versions.go:50-53 | an empty key, a bare sign, stray characters and digit separators are rejected |
| Ordering.LexLeTotalOrder | tests/e2e/utils/versions.go:129-130 | byte-wise string order is total, antisymmetric and transitive |
| Ordering.SortDescending | tests/e2e/utils/versions.go:129-130 | the in-place reverse sort leaves the array descending, a permutation of its old contents, and equal to the functional sort |
| Ordering.DescendingUnique | tests/e2e/utils/versions.go:129-130 | two descending arrangements of the same multiset are equal, so the earlier `semver.Sort` cannot affect the result |
| Ordering.SortDescDropHead | tests/e2e/utils/versions.go:36-38 | after sorting distinct items, the head is the greatest, and the tail holds exactly the others, descending and distinct |
| Versions.GetVersions | tests/e2e/utils/versions.go:116-132 | the plugin versions are a permutation of the table's keys in descending string order, with no repeats |
| Versions.ParseKeys | tests/e2e/utils/versions.go:47-55 | on success, each protocol is `Atoi` of the key at the same position; on failure, the error names the first key in iteration order that `Atoi` rejects |
| Versions.ProtocolKeys | tests/e2e/utils/versions.go:47-56 | the loop returns at the first rejected key, otherwise the protocols in descending order; it succeeds exactly when every key parses |
| Versions.MultiProtocol | tests/e2e/utils/versions.go:58-61 | the chosen protocol has more than one host and every earlier protocol has at most one; there is none exactly when no protocol has two hosts |
| Versions.FirstOfProtocol | tests/e2e/utils/versions.go:67-72 | the result speaks the protocol and no earlier version does; there is none exactly when no version speaks it |
| Versions.SortStrings | tests/e2e/utils/versions.go:62-63 | the host list, copied into an array, is sorted in place into descending string order, as a permutation |
| Versions.FindFirstOfProtocol | tests/e2e/utils/versions.go:67-72 | the loop with `break` returns the first plugin version of the protocol |
| Versions.MultiHostScan | tests/e2e/utils/versions.go:58-75 | the scan loop writes exactly what the multi-host specification writes |
| Versions.SoloScan | tests/e2e/utils/versions.go:80-102 | the pair loop leaves exactly the mapping and error of the solo-scan specification |
| Versions.VersionCache.constructor | tests/e2e/utils/versions.go:21-24 | the memo starts out nil |
| Versions.VersionCache.GetVersionMapping | tests/e2e/utils/versions.go:26-114 | a set memo is returned unchanged with no error; otherwise the call returns the resolution and memoizes what it leaves |
| VersionProperties.VersionsIgnoreIterationOrder | tests/e2e/utils/versions.go:122-130 | the sorted plugin versions are the same for every map iteration order |
| VersionProperties.TruncationDropsGreatest | tests/e2e/utils/versions.go:36-38 | truncation drops exactly the greatest version in string order and keeps every other, descending and distinct |
| VersionProperties.ReleaseStringOrder | tests/e2e/utils/versions.go:129-130 | in string order "v0.5.9" ranks above "v0.5.11", which ranks above "v0.5.10" |
| VersionProperties.TruncationKeepsHighestRelease | tests/e2e/utils/versions.go:36-38 | for the versions "v0.5.9", "v0.5.10" and "v0.5.11", in any iteration order, truncation drops "v0.5.9" and keeps the highest release "v0.5.11" |
| VersionProperties.TopTwoHosts | tests/e2e/utils/versions.go:62-65 | the first two sorted hosts are the two greatest, counting repeats, and the first is at least the second |
| VersionProperties.MultiProtocolIsLargest | tests/e2e/utils/versions.go:56-61 | over descending protocols, the chosen protocol is the largest with more than one host |
| VersionProperties.MultiHostChoice | tests/e2e/utils/versions.go:56-75 | with no multi-host protocol nothing is written; otherwise the largest such protocol supplies its top two hosts and its first plugin version exactly when one exists |
| VersionProperties.MultiHostFrame | tests/e2e/utils/versions.go:58-75 | the multi-host scan changes only its three keys, and its plugin key comes from the version list |
| VersionProperties.MultiHostWrites | tests/e2e/utils/versions.go:61-72 | once a protocol is found, the two host keys hold the sorted head and next, and the plugin key is written exactly when a version of that protocol exists |
| VersionProperties.SoloScanOutcome | tests/e2e/utils/versions.go:80-96 | success records the first pair sharing a protocol, together with its lookup result, after only differing pairs with successful lookups; "no compatible pair" exactly when no pair shares a protocol and all lookups succeed; otherwise the first failing lookup's error |
| VersionProperties.SoloScanFrame | tests/e2e/utils/versions.go:80-102 | the solo scan writes only its five keys, and its plugin keys hold versions from the list |
| VersionProperties.LatestKept | tests/e2e/utils/versions.go:97-100 | once the "latest" plugin key is non-empty, neither "latest" key is rewritten |
| VersionProperties.SoloKeysOnSuccess | tests/e2e/utils/versions.go:80-96 | the solo scan leaves the solo keys exactly when it visited a pair and ended without error |
| VersionProperties.LatestFromFirstPair | tests/e2e/utils/versions.go:80-100 | the "latest" keys are written only by the first pair, exactly when its protocols differ and its lookup succeeds |
| VersionProperties.SoloScanExample | tests/e2e/utils/versions.go:85-96 | two versions on the same protocol become the solo pair, with the looked-up host |
| VersionProperties.ProtocolsAreParsedKeys | tests/e2e/utils/versions.go:47-56 | the scanned protocols are descending, and are exactly the host-table keys as `Atoi` reads them |
| VersionProperties.NonCanonicalKeyHidesHosts | tests/e2e/utils/versions.go:50-61 | hosts filed under key "07" are looked up under "7", so the multi-host scan never sees them |
| VersionProperties.ResolveErrors | tests/e2e/utils/versions.go:26-53 | a failed download returns its error and leaves no memo; a malformed key fails exactly when some key does not parse, and leaves an empty memo; otherwise a memo is left, equal to the result on success |
| VersionProperties.AllKeysParse | tests/e2e/utils/versions.go:47-55 | the protocol list is available exactly when every host-table key parses |
| VersionProperties.ResolveSteps | tests/e2e/utils/versions.go:45-113 | past the parse, a call returns and memoizes the mapping filled by the scans in order, with the scan's error if any |
| VersionProperties.ScenariosOfShortLists | tests/e2e/utils/versions.go:80-83 | with no plugin version left there is no error and no solo or "latest" key; with one left, "no compatible pair" |
| VersionProperties.ScenariosOnlyAvago | tests/e2e/utils/versions.go:77-78 | the host-only scenario is "latest" in the filled mapping |
| VersionProperties.ScenariosKeepMultiKeys | tests/e2e/utils/versions.go:80-102 | the solo scan leaves the multi-host keys as written |
| VersionProperties.ScenariosMultiHost | tests/e2e/utils/versions.go:56-102 | the multi-host choice survives the solo scan |
| VersionProperties.ScenariosOutcome | tests/e2e/utils/versions.go:80-96 | the solo-scan outcomes hold for the filled mapping |
| VersionProperties.ScenariosSoloKeys | tests/e2e/utils/versions.go:80-96 | the filled mapping holds the solo keys exactly when a version was left and the solo scan succeeded |
| VersionProperties.ScenariosLatest | tests/e2e/utils/versions.go:97-100 | the "latest" keys of the filled mapping come from the first pair exactly when it differs and its lookup succeeds |
| VersionProperties.ScenariosPluginValues | tests/e2e/utils/versions.go:67-98 | every plugin-version key written holds a version of the list |
| VersionProperties.ResolveSmallTables | tests/e2e/utils/versions.go:38-83 | a one-entry plugin table succeeds without solo or "latest" keys; a two-entry table fails with "no compatible pair" |
| VersionProperties.ResolveOnlyAvago | tests/e2e/utils/versions.go:26-78 | on success the host-only scenario is "latest"; a memo holds it, as "latest", exactly when every host-table key parses, so the empty memo a malformed key leaves lacks it |
| VersionProperties.ResolveMultiHost | tests/e2e/utils/versions.go:47-75 | the memo's multi-host keys come from the largest protocol listed with more than one host, or are absent if there is none |
| VersionProperties.ResolveSoloPair | tests/e2e/utils/versions.go:80-96 | on success the solo keys hold the first adjacent pair of the truncated list sharing a protocol, with that protocol's looked-up host; the memo holds the solo keys exactly when the call succeeded with a version left |
| VersionProperties.ResolveScanErrors | tests/e2e/utils/versions.go:80-91 | a call fails with "no compatible pair" exactly when no pair shares a protocol and all lookups succeed; a failing lookup before the solo pair fails the call with that lookup's error |
| VersionProperties.ResolveLatest | tests/e2e/utils/versions.go:97-100 | the memo's "latest" keys hold the first remaining version and its looked-up host exactly when the first pair differs and its lookup succeeds |
| VersionProperties.ResolveNeverPicksGreatest | tests/e2e/utils/versions.go:38-98 | no plugin-version key of the memo ever holds the dropped version, the greatest in string order |
| VersionProperties.CallTwice | tests/e2e/utils/versions.go:26-45 | a second call returns the first call's memo, even after a failure, and recomputes only when the first failed before the memo existed; after a malformed key the first call fails and the second succeeds with the empty mapping |

## Left out

- Downloading and JSON decoding of the two tables (tests/e2e/utils/versions.go:134-159) are I/O. The decoded tables, or the error message, are inputs.
- The `url` argument of `getVersions` is ignored by the code (line 117) and is not modelled.
- The mutex around the memo (lines 23, 27-28) is concurrency. Calls are modelled one at a time.
- The `fmt.Println` diagnostics (lines 104-111) are output only.
- `semver.Sort` (lines 62, 129) is not modelled: the string sort that follows it fixes the order on its own (`Ordering.DescendingUnique`).
- `vm.GetLatestAvalancheGoByProtocolVersion` is not part of this model. It is a parameter: a deterministic function from protocol to host release or error message.
- The string values of the scenario-key constants are defined outside the file. They are the datatype `Versions.Key`.
- Versions.SortStrings: sorts a copy of the host list. The sort in place that the host table itself sees (the slice aliases the table's entry) is not modelled, because nothing later reads that entry.
- VersionProperties.CallTwice: requires the second call's inputs to be runnable even when the memo makes them irrelevant.
- VersionProperties.ResolveMultiHost: stated for host tables whose keys all parse. When a key fails to parse, `ResolveErrors` gives the empty memo.
- VersionProperties.ResolveLatest: stated for host tables whose keys all parse. When a key fails to parse, `ResolveErrors` gives the empty memo.
- VersionProperties.ResolveScanErrors: stated for host tables whose keys all parse. When a key fails to parse, `ResolveErrors` gives the error.
- VersionProperties.ResolveSmallTables: stated for host tables whose keys all parse. When a key fails to parse, `ResolveErrors` gives the error.
- An empty plugin table panics in the code. Here it is excluded by the precondition `Runnable`.
- Strconv.Atoi: its own contract gives only the range and the leading character; which keys it accepts and what they denote is `Strconv.AtoiExactly`.
