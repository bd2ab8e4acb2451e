# Attachment cache and audit records of a Discord audit bot

This project models the core of `main.py`, a Discord bot that keeps an audit
log of deleted and edited messages. The core has two parts.

- **The content-addressed attachment cache (`async_download`).** A download
  that answers 200 is hashed. The `cache` table is keyed by that hash. On a
  hit the stored filename is returned and nothing is written. On a miss the
  bytes are written to `.cache/<token>.<extension>.cache`, then a row
  (url, hash, filename) is inserted.
- **Record assembly.**
  - `save_deleted_message` appends one row per deleted message. Its
    attachment column joins the names that came back with `", "`.
  - `handle_edit` downloads every attachment present before the edit, then
    every removed one. It appends a row only when every download returned a
    name: a `None` in `', '.join` raises, and the row is lost.
  - `save_user` and `save_server` update the dimension tables.

The model is layered in five modules:

- `wrappers.dfy` (`Wrappers`): `Option`, for Python's `None`.
- `strings.dfy` (`Strings`): Python's `str.split` and `str.join` with a
  string separator, and their round trips.
- `naming.dfy` (`Naming`): the token alphabet, the base URL and extension
  taken from a URL, the cache filename, and a parser for it.
- `cache.dfy` (`Cache`):
  - `ResolveStep` is one download as a pure function on a `Store`, which
    pairs the table with the folder. `ResolveEach` is a list of downloads.
  - `AttachmentCache` is a class whose fields are the table and the folder.
    Its methods `Resolve` and `ResolveAll` are proved to compute
    `ResolveStep` and `ResolveEach`.
  - Lemmas state hit, miss, failure, deduplication and the store invariants.
- `audit.dfy` (`Audit`):
  - The messages and the rows of the two audit databases.
  - `AuditDb`, a class holding the `users`, `servers` and record tables.
  - `SaveDeletedMessage`, whose loop is proved against `ResolveEach` and
    `Successes`.
  - `HandleEdit`, proved against `ResolveEach` and `JoinResults`.

The outside world enters as parameters:

- The SHA-256 hex digest is an opaque function `digest`, fixed when the cache
  is built.
- Each download's `Outcome` holds three things:
  - `fetched`: the body of a 200 response, or `None` for another status or a
    transport error;
  - `token`: the twelve random characters;
  - `diskOk`: whether `open` succeeds in creating the file.
- A write also fails when the new name contains `/`. `os.path.join('.cache',
  name)` then names a sub-directory of `.cache` that does not exist, and
  `open` raises.
- Timestamps are opaque strings.
- The order in which `handle_edit` iterates the removed-URL set is a
  parameter. Its only guarantee is that, as a multiset, it equals the set.

Four behaviours of the code that a reader might not expect:

- **Failed downloads in a deletion record.** A failed download leaves no
  trace in the record. Its name is simply missing from the joined column;
  there is no "absent" marker.
- **Failed downloads in an edit record.** Any failed download means no edit
  record is written at all. The cache writes of the other downloads stay.
- **`save_server`.** It is first-write-wins (`INSERT OR IGNORE`), not an
  upsert. `save_user` is an upsert.
- **Which responses count.** Only status 200 counts as a successful fetch; any other status, 2xx included, gives `None`.

## Model

| member | source | states |
|---|---|---|
| Strings.IndexOf | main.py:163 | the first-occurrence search `str.split` performs: the result is an occurrence of the separator and none starts earlier; `None` exactly when the separator does not occur |
| Strings.Split | main.py:163-164 | `str.split(sep)` always yields at least one piece |
| Strings.SplitPiecesAreFree | main.py:163-164 | no piece of a split contains the separator |
| Strings.Join | main.py:217 | `', '.join`: a join of at least one piece starts with the first piece (its pieces are pinned down by `SplitJoin`) |
| Strings.JoinSplit | main.py:163-164 | joining the pieces of a split with the same separator gives back the string |
| Strings.SplitJoin | main.py:217 | splitting a join of at least one piece gives back the pieces, provided no piece holds the separator's first character |
| Strings.JoinIsEmpty | main.py:217 | a join is empty exactly when there are no pieces, or a single empty one |
| Strings.FirstPiece | main.py:163 | `split(c)[0]` is the prefix before the first `c`, or the whole string |
| Strings.LastPiece | main.py:164 | `split(c)[-1]` is the suffix after the last `c`, or the whole string |
| Naming.TokenAlphabetIsAlphanumeric | main.py:134 | the token alphabet `ascii_letters + digits` is exactly `a`-`z`, `A`-`Z` and `0`-`9` |
| Naming.IsToken | main.py:134 | a possible token is exactly a string of twelve ASCII letters and digits |
| Naming.BaseUrl | main.py:163 | `url.split('?')[0]` is a prefix of the URL holding no `?` |
| Naming.Extension | main.py:164 | `base_url.split('.')[-1]` is no longer than the base URL and holds no `.` |
| Naming.CacheFilename | main.py:135 | the f-string `<token>.<extension>.cache`: the token, a dot, the extension and `.cache`, each at its position, nothing more |
| Naming.BaseUrlShape | main.py:163 | the base URL is the prefix before the first `?` (all of the URL without one) and holds no `?` |
| Naming.ExtensionShape | main.py:164 | the extension is the suffix of the base URL after its last `.` (all of it without one) and holds no `.` |
| Naming.FilenameShape | main.py:163-165 | a new name is the 12-character token, `.`, the extension and `.cache` |
| Naming.ParseCacheFilename | main.py:133-135 | a generated name parses back into its token and extension |
| Naming.CacheFilenameOfParse | main.py:133-135 | every name that parses is the generated name of its parts |
| Naming.GeneratedNameIsCacheFilename | main.py:133-135 | a generated name is a cache filename of at least 19 characters |
| Naming.BaseUrlExample | main.py:163 | the base URL of `a.b/c?d` is `a.b/c` |
| Naming.ExtensionMayContainSlash | main.py:164 | when the file part has no dot, the extension reaches into the path: for `a.b/c?d` it is `b/c` |
| Cache.NewName | main.py:163-165 | the name of a miss, from the URL's extension and a valid token, is a cache filename |
| Cache.Writable | main.py:166-169 | `open` succeeds exactly when the disk allows it and the name holds no `/` |
| Cache.ResolveStep | main.py:145-181 | one download: a failed fetch changes nothing and returns `None`; existing rows are kept; file names are only added; a changed store has gained exactly the row for the content's digest; a returned name is the one the row for that digest holds |
| Cache.ResolveEach | main.py:223-224 | a batch has one result per URL |
| Cache.FailedFetch | main.py:149-181 | a failed fetch returns `None` and leaves the table and the folder unchanged |
| Cache.CacheHit | main.py:156-161 | a hit returns the stored name and changes nothing, so the row keeps the first URL of that content |
| Cache.CacheMiss | main.py:163-178 | a miss adds exactly the row digest to (url, new name), writes the bytes under the new name and returns it; all other rows and files are unchanged |
| Cache.WriteFailure | main.py:166-181 | a miss whose file cannot be opened returns `None` and adds no row and no file |
| Cache.SlashExtensionNotStored | main.py:163-169 | a miss on a URL whose extension holds `/` stores nothing and returns `None` |
| Cache.ResolveEachFacts | main.py:223-224 | over a batch, rows are kept and file names only added; a failed fetch gives `None` in its own position; every returned name is the name the final table holds for that content |
| Cache.ResolveEachAt | main.py:223-224 | the `i`-th result is the `i`-th download performed on the store the first `i` downloads left |
| Cache.FailureIsIsolated | main.py:208-211 | a failed download in a batch yields `None` in its own position and leaves the same store and the same other results as the batch without it |
| Cache.SameContentSameName | main.py:151-161 | within a batch, two successful downloads of identical bytes return the same name |
| Cache.ResolveKeepsConsistent | main.py:163-175 | a download keeps the folder equal to the set of names the table refers to, all of them cache filenames without `/` |
| Cache.ResolveKeepsIntact | main.py:166-175 | with an unused new name, a download keeps every file's content matching the digest of its row |
| Cache.OneFilePerDigest | main.py:118-122 | in a consistent, intact store, exactly one file has a stored digest and none has an unstored one |
| Cache.Dedup | main.py:151-161 | after bytes are stored, a second download of them from any URL changes nothing and returns the same name; exactly one row and one file exist for that digest |
| Cache.ResolveEachKeepsConsistent | main.py:223-224 | a batch of downloads keeps the store consistent |
| Cache.AttachmentCache.constructor | main.py:113-124 | the cache starts with an empty table and an empty folder |
| Cache.AttachmentCache.Resolve | main.py:145-181 | the new table, folder and result are those of `ResolveStep`; consistency is kept; a returned name is a non-empty cache filename |
| Cache.AttachmentCache.ResolveAll | main.py:223-224 | the new store and the results are those of `ResolveEach` over the URLs in order |
| Audit.UrlSet | main.py:227-228 | the set of the URLs of a list of attachments |
| Audit.RemovedUrls | main.py:227-229 | a URL is removed exactly when it is among the attachments before and not among those after |
| Audit.RemovedUrlsSize | main.py:227-229 | no more URLs are removed than there were attachments before |
| Audit.RemovedOrderEnumerates | main.py:229-232 | any iteration order of the removed set lists every removed URL exactly once and nothing else |
| Audit.Successes | main.py:207-211 | the `attachments` list has no more names than there were downloads; which names it holds is stated by `SuccessesKeepsResults` and `SuccessesAreResults`, their order by `SuccessesOfConcat` |
| Audit.SuccessesSnoc | main.py:208-211 | a loop step appends the new name exactly when the download returned one |
| Audit.SuccessesKeepsResults | main.py:208-211 | every name a download returned is kept, and exactly one name is kept per download that returned one |
| Audit.SuccessesAreResults | main.py:207-211 | every kept name is one of the results |
| Audit.SuccessesEmpty | main.py:207-211 | no name is kept exactly when every download failed |
| Audit.SuccessesOfConcat | main.py:207-211 | the names kept from two lists of results one after the other are those kept from the first, then those kept from the second: the list follows attachment order |
| Audit.SuccessesOfAllResolved | main.py:246-247 | when every download succeeded, the kept names are the results, in order |
| Audit.JoinResults | main.py:246-247 | `', '.join` on the results yields a string exactly when every result is a name, and then it is the join of the results' names position by position |
| Audit.DeletionFieldEmpty | main.py:217 | the deletion record's attachment column is empty exactly when no attachment was stored |
| Audit.DeletionFieldSplits | main.py:217 | if some name was kept and none holds a comma, the attachment column splits back into the kept names |
| Audit.EditFieldSplits | main.py:246-247 | with at least one attachment, when every download succeeded and no name holds a comma, an edit column splits into one name per attachment, in order (with none the column is `""`, which splits into one empty piece) |
| Audit.AuditDb.constructor | main.py:31-102 | a database (`setup_deleted_db` or `setup_edited_db`) starts with empty `users`, `servers` and record tables |
| Audit.AuditDb.SaveUser | main.py:188-197 | the user's row is inserted or overwritten; nothing else changes |
| Audit.AuditDb.SaveServer | main.py:199-204 | a new server id is inserted, a known one keeps its first name; nothing else changes |
| Audit.AuditDb.Append | main.py:214-219 | a record is appended at the end of its table; nothing else changes |
| Audit.SaveDeletedMessage | main.py:206-219 | the cache ends as the batch over the attachments leaves it; exactly one record is appended, whose attachment column joins the names that came back, in order, even when there are none |
| Audit.HandleEdit | main.py:221-249 | the cache ends as the batch over the old attachments, then the removed ones, leaves it; a record holding both joined columns is appended exactly when every download returned a name, otherwise the table is unchanged |

## Left out

- Discord client and intents (main.py:13-16).
- The event handlers (main.py:251-272). `on_message_delete` and `on_message_edit` call `save_user`, `save_server` and then `save_deleted_message` or `handle_edit`, which are all modelled; the composition is not. `on_ready` prints a log line. `on_message` runs `export_to_csv` on `!csv` and sends a reply to the channel.
- A message without a guild (a direct message), for which the handlers raise.
- The aiohttp request (main.py:147-150): its outcome is the `fetched` input.
- SHA-256 (main.py:138-139): an opaque function of the bytes. Collisions are not excluded, so two different contents with equal digests share one file, as they would in the code.
- `random.choices` (main.py:134): the token is an input, required only to have twelve letters or digits.
- The `ThreadPoolExecutor`, the nested `asyncio.run` and `asyncio.gather` (main.py:142, 183-185, 224, 232): downloads are modelled one after the other, in list order. The code has no lock between the lookup and the insert, so two concurrent misses on the same content can both write a file, and the second insert then fails on the primary key. That race is not modelled.
- SQLite connections, table creation, folder creation and the token file (main.py:18-130, 337-338): setup I/O. Records are modelled as sequences, with `entry_id` being the position.
- A write that fails after `open` has created the file (main.py:168-169), for instance on a full disk: the code returns `None` without a row but leaves a partial, unreferenced file behind, or truncates another content's file on a token collision. The model treats every failed write as leaving the folder unchanged, so `Consistent` does not cover this path.
- A file written whose row insert then fails, leaving an orphan file: the insert cannot fail in the sequential model.
- `export_to_csv` (main.py:275-334): file I/O with no logic beyond column order.
- `datetime.now().isoformat()` (main.py:217, 242): an opaque `now` string.
- Cache.ResolveKeepsIntact: requires a new name unused in the folder. The code does not defend against a token collision, which overwrites the other content's file.
- Audit.HandleEdit: the removed URLs come in an input order that is only known to equal the removed set as a multiset. Python's actual set iteration order is not modelled.
- Audit.DeletionFieldSplits and Audit.EditFieldSplits: they require that no name holds a comma, which is sufficient but not necessary. The joined column is ambiguous only when a name holds the separator `, ` itself, which an extension taken from a URL may.
