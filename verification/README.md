# eSSD poller persistence and switch-poller lifecycle, in Dafny

This project models the bookkeeping core of the fabric manager's device
pollers:

- **Key normalisation** (`Keys`). `removeDuplicates` collapses every run of
  `/` into one `/`. `addPrefix` builds `tag/uuid/key` and normalises it.
- **Differential save** (`EssdSave`). `EssdDrive.save` stores a document under
  `/essd/<uuid>/<path>`. It writes only when the store does not already read
  back the same value. A failed read counts as "absent".
- **Crawl** (`Crawler`). `readEssdData` and `readEssdSystemsData` save the
  root document, then walk Systems → member → Storage → storage member →
  Drives. They save every node read with status 200. A node read with any
  other status loses its subtree, and its siblings are still visited.
- **Liveness record** (`Liveness`). `updateUuid` stamps the device uuid in
  `/essd/uptimes`. `removeUuidOlderThan` splits that record relative to the
  newest uptime. It writes back the kept part and deletes `/essd/<uuid>` for
  every removed uuid.
- **Switch poller lifecycle** (`SwitchPoller`). The poller has a `_running`
  flag, the client chosen at `start` from the switch type, `stop`,
  `is_running` and teardown.

How the outside world is represented:

- **Key-value store.** An immutable value (`KeyValueStore.Store`) holding the
  contents, the set of keys whose read raises, and a log of every save and
  delete. The log is what lets a contract say "no write happened".
- **Remote Redfish client.** A pure function from path to (status, document)
  (`Redfish.Remote`). `EssdDrive.get` becomes `Redfish.Get`, which hands back
  the empty document for a non-200 status.
- **Clock.** The parameter `now`.
- **`db == None` and `uuid == None`.** Both are `Option`s.
- **Exceptions that escape an operation.** `Result.Failure`. In every such
  case the exception is raised before anything is written.

The crawl's reads never depend on the store. So the crawl is stated as the
ordered sequence of nodes it saves (`Crawler.CrawlVisits`), folded through
`save` (`Crawler.SaveAll`). This gives the same saves in the same order as the
source's interleaved reads and writes.

Four behaviours of the code are worth stating plainly, and the model has
each of them:

- `readEssdData` never calls `updateUuid`.
- `stop` calls the thread's `stop` even when the poller is already stopped.
- An empty liveness record makes `max` raise before anything is written.
- Eviction deletes the single key `/essd/<uuid>`. It does not delete the
  records under `/essd/<uuid>/…`.

## Model

| member | source | states |
|---|---|---|
| `Keys.RemoveDuplicates` | ufm/fabricmanager/systems/essd/essd_drive.py:45-56 | The result never contains "//". It is no longer than the input. Its non-'/' characters are the input's, in order. |
| `Keys.RemoveDuplicatesIsCollapse` | ufm/fabricmanager/systems/essd/essd_drive.py:45-56 | The loop's result equals an independent definition: every '/' followed by another '/' is dropped, so each maximal run of '/' becomes one '/'. |
| `Keys.RemoveDuplicatesFixedPoints` | ufm/fabricmanager/systems/essd/essd_drive.py:45-56 | A string is left unchanged if and only if it contains no "//". |
| `Keys.RemoveDuplicatesIdempotent` | ufm/fabricmanager/systems/essd/essd_drive.py:45-56 | Normalising twice is the same as normalising once. |
| `Keys.DedupAppend` | ufm/fabricmanager/systems/essd/essd_drive.py:45-56 | Normalising a concatenation normalises the second part in the state the first part leaves, that is, whether it ended in '/'. |
| `Keys.AddPrefix` | ufm/fabricmanager/systems/essd/essd_drive.py:59-60 | A prefixed key never contains "//". Its non-'/' characters are those of tag, uuid and key, in that order. |
| `Keys.AddPrefixStartsWithTag` | ufm/fabricmanager/systems/essd/essd_drive.py:59-60 | If the tag has no "//", the prefixed key starts with the tag. |
| `Keys.EssdKeyShape` | ufm/fabricmanager/systems/essd/essd_drive.py:14-14 | Every eSSD record key starts with "/essd/" and contains no "//". |
| `EssdSave.Save` | ufm/fabricmanager/systems/essd/essd_drive.py:63-80 | With no store the call is a no-op, and with no uuid the store is unchanged. Otherwise the store afterwards holds the value at the normalised key, and no other key or read-failure changes. Exactly one write is logged, at that key, unless the read gave back the same value; then nothing is logged. A read that raises counts as a differing read. |
| `EssdSave.SaveTwiceWritesOnce` | ufm/fabricmanager/systems/essd/essd_drive.py:71-80 | If the store reads back what it saved, a second save of the same key and value changes nothing. The two saves together log at most one write. |
| `EssdSave.SaveAsWritten` | ufm/fabricmanager/systems/essd/essd_drive.py:73-80 | Models the code as written: a decoded str never equals a dict, so every call that has a store and a uuid writes. |
| `EssdSave.AsWrittenSaveRewritesUnchanged` | ufm/fabricmanager/systems/essd/essd_drive.py:73-80 | As written, after one save the store already holds the document, and the corrected save would skip. A second as-written save still logs a write, so there are two writes. |
| `Crawler.Listed` | ufm/fabricmanager/systems/essd/essd_drive.py:153-155 | The members visited are the first `Members@odata.count` entries of `Members`, in order. None are visited when the count is zero or negative. |
| `Crawler.CrawlVisits` | ufm/fabricmanager/systems/essd/essd_drive.py:185-205 | The root document is saved first, under "/redfish/v1". Nothing else is saved if the root has no "Systems" entry or Systems does not read with 200. |
| `Crawler.NodeVisitsReached` | ufm/fabricmanager/systems/essd/essd_drive.py:156-182 | A subtree saves exactly the nodes reached from its root by a chain of links whose every node read with 200. Each is saved with the document read at its own path. |
| `Crawler.EachVisitsReached` | ufm/fabricmanager/systems/essd/essd_drive.py:154-182 | A sibling loop saves exactly the nodes reached, as above, from one of its siblings. |
| `Crawler.ReachesOk` | ufm/fabricmanager/systems/essd/essd_drive.py:156-182 | Every node reached through the chain itself read with 200. |
| `Crawler.EachVisitsAppend` | ufm/fabricmanager/systems/essd/essd_drive.py:154-182 | A loop over two runs of siblings saves what the first run saves, then what the second run saves. |
| `Crawler.FailedSiblingSkipped` | ufm/fabricmanager/systems/essd/essd_drive.py:156-182 | A sibling whose read is not 200 contributes nothing. The siblings before and after it contribute exactly what they would alone, in reported order. |
| `Crawler.CrawlVisitsReached` | ufm/fabricmanager/systems/essd/essd_drive.py:147-205 | A node is saved if and only if one of these holds: it is the root; or the root lists Systems, Systems reads with 200, and the node is Systems itself or is reached from one of the counted members. The node carries the document read at its path. |
| `Crawler.CrawlSavesOnlyReadNodes` | ufm/fabricmanager/systems/essd/essd_drive.py:147-182 | Apart from the root, only nodes read with 200 are saved, each with the document that read returned. |
| `Crawler.SaveAll` | ufm/fabricmanager/systems/essd/essd_drive.py:152-182 | With no store the crawl's saves do nothing. With no uuid they leave the store unchanged. |
| `Crawler.SaveAllEffect` | ufm/fabricmanager/systems/essd/essd_drive.py:152-182 | Saving the visits differentially leaves the same contents as writing every visit unconditionally. It logs at most one write per visit. Every logged op is a write of a visited node under its record key, and nothing is deleted. |
| `Redfish.Get` | ufm/fabricmanager/systems/essd/essd_drive.py:25-31 | The response keeps the remote status. With status 200 it carries the remote document; with any other status it carries the empty document. |
| `Crawler.ReadEssdSystemsData` | ufm/fabricmanager/systems/essd/essd_drive.py:147-150 | A non-200 on "/redfish/v1/Systems" leaves the store unchanged. |
| `Crawler.ReadEssdDataSavesVisits` | ufm/fabricmanager/systems/essd/essd_drive.py:185-193 | The whole crawl logs only writes of its visits. It leaves the contents that writing every visit in order would leave. |
| `Crawler.ReadEssdData` | ufm/fabricmanager/systems/essd/essd_drive.py:185-205 | With no store nothing happens, and with no uuid the store is unchanged. Otherwise the call only appends to the store's log. Without a "Systems" entry in the root, or when Systems does not read with 200, the only effect is the save of the root document. The Systems count is trusted only when the root lists Systems. |
| `Crawler.CrawlWithoutSystems` | ufm/fabricmanager/systems/essd/essd_drive.py:190-193 | Without a "Systems" entry the crawl saves only the root, even against a remote whose Systems count overruns its members. |
| `Liveness.Previous` | ufm/fabricmanager/systems/essd/essd_drive.py:87-96 | An absent or unreadable record reads as the empty map. A readable uptimes record reads back as the map stored. Loading fails exactly when the stored value is not an uptimes record. |
| `Liveness.UpdateUuid` | ufm/fabricmanager/systems/essd/essd_drive.py:83-106 | With no store the call is a no-op, and a malformed record raises. Otherwise exactly one write of "/essd/uptimes" is logged, whatever the previous contents. It stores the previous map (empty if absent or unreadable) with the uuid stamped `now`, and every other entry unchanged. A `None` uuid is stored as "null" when it is the only key; otherwise the sorted dump raises. |
| `Liveness.Evicted` | ufm/fabricmanager/systems/essd/essd_drive.py:127-134 | The removed and kept entries are disjoint and together make up the whole record. An entry is removed exactly when its uptime plus `sec` is below the newest uptime, and it keeps its value. |
| `Liveness.NewestSurvives` | ufm/fabricmanager/systems/essd/essd_drive.py:124-134 | With `sec >= 0`, the entry holding the newest uptime is kept and never removed. |
| `Liveness.SingleUuidNeverEvicted` | ufm/fabricmanager/systems/essd/essd_drive.py:124-134 | With `sec >= 0`, a record with a single uuid keeps it and removes nothing. |
| `Liveness.ThreeDeviceEviction` | ufm/fabricmanager/systems/essd/essd_drive.py:124-134 | Example: A and B at 100, C at 150, threshold 40. The newest uptime is 150, A and B are removed, and C is kept. |
| `Liveness.MaxUptime` | ufm/fabricmanager/systems/essd/essd_drive.py:125-125 | Returns an uptime of the record that no other uptime exceeds. |
| `Liveness.DeleteDevices` | ufm/fabricmanager/systems/essd/essd_drive.py:140-144 | Issues one delete of "/essd/<u>" per removed uuid, with no repeats and no other op. Exactly those keys disappear from the contents. |
| `Liveness.RemoveUuidOlderThan` | ufm/fabricmanager/systems/essd/essd_drive.py:109-144 | With no store, or a read that raises, nothing happens. A malformed or empty record raises before any write. Otherwise the call logs one write of the kept entries, even when none are removed, then one delete per removed uuid. The contents end as the kept record minus the deleted device keys. |
| `Liveness.RemoveUuidOlderThanAsWritten` | ufm/fabricmanager/systems/essd/essd_drive.py:109-124 | Models the code as written: whenever it returns normally the store is unchanged. |
| `Liveness.AsWrittenNeverEvicts` | ufm/fabricmanager/systems/essd/essd_drive.py:124-125 | As written, the three-device record raises NameError and evicts nothing. The corrected sweep evicts A and B. |
| `SwitchPoller.Init` | ufm/fabricmanager/systems/switch/switch_poller.py:41-49 | A fresh poller is not running, has no client and has made no thread calls. |
| `SwitchPoller.Start` | ufm/fabricmanager/systems/switch/switch_poller.py:57-70 | Start succeeds if and only if the switch type lower-cased is "mellanox". On success it builds the client from the arguments, sets running, and starts the thread exactly once. On failure it raises the invalid-type error naming the type. |
| `SwitchPoller.Stop` | ufm/fabricmanager/systems/switch/switch_poller.py:72-75 | Afterwards the poller is not running, whatever the state before. One thread stop is logged, and client and configuration are unchanged. |
| `SwitchPoller.Teardown` | ufm/fabricmanager/systems/switch/switch_poller.py:52-55 | Afterwards the poller is not running. A stopped poller is left as it was. A running one is stopped through exactly one thread stop. |
| `SwitchPoller.IsRunning` | ufm/fabricmanager/systems/switch/switch_poller.py:77-78 | Reports the running flag, the one `start` sets on success and `stop` clears. |
| `SwitchPoller.StartIgnoresCase` | ufm/fabricmanager/systems/switch/switch_poller.py:60-60 | Switch types that differ only in the case of letters are accepted or refused alike. |
| `SwitchPoller.AcceptedSpellings` | ufm/fabricmanager/systems/switch/switch_poller.py:60-63 | "mellanox", "Mellanox" and "MELLANOX" start; "mlnx" is refused. |
| `SwitchPoller.LifecycleObservations` | ufm/fabricmanager/systems/switch/switch_poller.py:65-78 | `is_running` is true after an accepted start and false after any `stop`. Teardown leaves it false and is idempotent. |

## Left out

- `EssdDrive.__init__` and `__del__` (redfish session, login, logout) are not modelled: they are network I/O. The session's result is taken as given: the uuid and the root document.
- `EssdDrive.get` is not modelled as network I/O: it is the pure function `Redfish.Get` over a `Remote`.
- `printAllMembers` is not modelled: it only prints.
- JSON text is not modelled. The dump/load round trip is taken to be the identity on documents, and the uptimes record is the `map<string, int>` it encodes. An empty stored string behaves like the empty record.
- `time.time()` is not modelled: `now` is a parameter, already truncated to whole seconds.
- `UfmThread` is not modelled: its interval, background thread, overlap and cancellation are foreign code. The poller only records the calls it makes on it.
- `SwitchMellanoxClient` and `poll_to_db` are not modelled. `_poller` only delegates to them, and the client is a record of the arguments it was built from.
- Logging is not modelled.
- `Crawler.ReadEssdSystemsData` and `Crawler.SystemsVisits` require `Members@odata.count` to be at most the length of `Members` of a Systems document that reads with 200. `Crawler.ReadEssdData`, `Crawler.CrawlVisits` and the lemmas about them require this only when the root lists "Systems", since only then is Systems read. The `IndexError` the source raises when the count overruns is not modelled.
- `Crawler.FailedSiblingSkipped`: failure isolation covers reads that return a non-200 status. A `get` that raises (a transport error or timeout of the client built with `timeout=1, max_retry=1`) is not modelled, because `Redfish.Remote` is total. In the source nothing between the Systems read and the Drives loop catches it, so such an exception ends the whole walk: the saves already made stay, and every later node, sibling or not, is skipped.
- A document missing `Members`, `Storage` or `Drives` would raise `KeyError` in the source. This cannot happen in the model, because those fields always exist in `Redfish.Body`.
- Failures of `save_key_value` and `delete_key_value` are not modelled: writes and deletes always succeed. Reads can fail, through the store's unreadable keys.
- `Liveness.RemoveUuidOlderThan`: Python deletes removed uuids in sorted key order, because `json.dumps` sorts the keys. The model fixes no order; it only promises one delete per removed uuid.
- `SwitchPoller.Start`: lower-casing covers ASCII letters only. The only other characters whose Python lower case is a letter of "mellanox" are outside that word's letters (for example the Kelvin sign becomes "k"), so the set of accepted switch types is the same.
- The uuid is a string. The source applies `str()` to whatever `root['UUID']` holds.

## Findings

| source | as written | input that shows it | evidently intended | confidence | as-written member | corrected member |
|---|---|---|---|---|---|---|
| ufm/fabricmanager/systems/essd/essd_drive.py:124 | `max` is taken over `uuid.values()`, and `uuid` is bound nowhere, so every call that loads a record raises `NameError` before writing or deleting | the record A=100, B=100, C=150 with `sec` = 40 | the newest uptime of the loaded map `uuids`; A and B evicted, C kept | not executed; high | `Liveness.AsWrittenNeverEvicts` | `Liveness.RemoveUuidOlderThan` |
| ufm/fabricmanager/systems/essd/essd_drive.py:74-75 | the decoded `str` read back is compared with `jsonData`, which is always a parsed `dict` for the crawler and the root document, so the early return never fires | two crawls of an unchanged remote tree against a store that reads back what it saved | skip the write when the stored document equals the new one | not executed; high | `EssdSave.AsWrittenSaveRewritesUnchanged` | `EssdSave.SaveTwiceWritesOnce` |
