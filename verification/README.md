# Verification models of the storage reference app

The application is a dashboard and an API over an S3-compatible object store. This
project models, in Dafny, the parts that carry state, loops, encodings or arithmetic, and
proves what they are for. One module stands for one source file or one component:

| module | what it models |
|---|---|
| `UploadSessions`, `Uploads` | the bounded LRU store of upload-progress sessions, and the two uploads that write to it |
| `MarkerScanner`, `ScannerLab`, `Confirm` | the marker scanner, the key the lab writes the verdict into, and the confirmation of direct uploads |
| `Tenants`, `TenantIsolation`, `BulkDeletion` | tenant-scoped upload, listing and paged clear; non-interference between tenants |
| `Buckets`, `KeyOrder` | the object store behind the library, as a verified class with ordered, paged listing |
| `Keys`, `PublicUrls`, `ObjectKeys`, `Breadcrumbs` | key composition, published URLs, key validation, the breadcrumb trail |
| `Truncation`, `Utf` | truncation to a UTF-8 byte budget; UTF-8 and UTF-16 (RFC 3629 and the WHATWG Encoding Standard) |
| `Vault`, `Base64`, `HexPreview`, `HexDigits`, `DirectUpload` | copy, delete and range download; base64 across the wire (section 4 of RFC 4648); the hex dump; multipart splitting |
| `Expiry`, `Calendar` | the expiry of presigned URLs over the time values of section 21.4.1 of ECMA-262 |

Text is modelled in two ways. A Dafny `string` is a sequence of Unicode scalar values,
that is, a well-formed text; where lone surrogates matter a JavaScript string is a
sequence of UTF-16 code units. Bytes are integers below 256. Generated ids, provider
answers such as ETags, and the current time are parameters.

Behaviour of the code that its documentation does not mention, stated exactly:

- Truncation promises the input or a prefix of it. That promise is kept exactly if the
  input fits, or the part read is nothing but byte order marks, or it holds no lone
  surrogate and does not begin with a mark (`PrefixExactly`; `MarkBreaksThePrefix` and
  `LoneSurrogateBreaksThePrefix` show inputs where it is not). The stronger property, the
  longest prefix that fits and splits no character, holds exactly without the case of
  one or more marks and nothing else (`LongestExactlyWithoutMarkOrLoneSurrogate`, `MarkIsLost`).
- Re-creating a live upload session empties it without refreshing its recency, because
  setting a present key of a `Map` does not move it (`RecreateDoesNotRefresh`).
- The lab's key shows the verdict except for a seed that carries a worse marker
  (`KeyShowsStatus`, `SeedCanDisagree`).
- Public URLs and displayed full keys use the configured prefix and the key as they are, while
  the library trims and collapses; the two agree exactly for a prefix without slashes at its
  ends and a key without double slashes (`PublishedIsStoredExactlyWhenNormal`).
- No rule of the copy request keeps source and destination apart. A rename onto the
  object's own location, under any spelling of the key, loses the object exactly if the
  provider accepts a copy onto itself; a provider that refuses it leaves everything as it
  was (`RenameLosesExactly`, `RespellingCanLose`).
- A click on the crumb of a folder named `root` goes to the root, because crumbs are told
  apart by their label (`ClickLeadsToItsTrail`, `RootFolderGoesHome`).
- An empty file has no parts but a part count of one (`SplitIntoParts`, `PartCountIsLeast`).
- Composing a key twice equals composing it once exactly when the trimmed prefix is
  empty (`TwiceIsOnceExactlyWithoutPrefix`).

## Model

| member | source | states |
|---|---|---|
| UploadSessions.UploadSessionStore.constructor | apps/api/src/uploads/upload-session.store.ts:40-41 | a new store is the empty LRU state, with no calls in its history; its invariant keeps the store equal to the run of its history |
| UploadSessions.UploadSessionStore.Create | apps/api/src/uploads/upload-session.store.ts:48-51 | one `Create` step of the LRU state: the entry is emptied, a present id keeps its place, a new one goes last, the oldest is dropped over capacity |
| UploadSessions.UploadSessionStore.EvictIfNeeded | apps/api/src/uploads/upload-session.store.ts:97-104 | first keys are dropped until the store is within capacity, keys and entries staying in step |
| UploadSessions.UploadSessionStore.Append | apps/api/src/uploads/upload-session.store.ts:60-70 | a hit appends one snapshot and moves the id to the newest place; a miss changes nothing; no id comes or goes |
| UploadSessions.UploadSessionStore.Get | apps/api/src/uploads/upload-session.store.ts:83-89 | returns the snapshots of a live id or nothing; a hit refreshes recency and changes no entry |
| UploadSessions.UploadSessionStore.Size | apps/api/src/uploads/upload-session.store.ts:107-109 | the number of sessions, never above the capacity |
| UploadSessions.AliveExactlyByRecency | apps/api/src/uploads/upload-session.store.ts:33-104 | over every history and every capacity: an id is stored exactly when it was touched and fewer than capacity distinct others were touched since its own last touch |
| UploadSessions.RunKeepsStack | apps/api/src/uploads/upload-session.store.ts:33-38 | over every history: the ids behind a position are exactly those touched since the id there, and a touched id that is gone has been followed by at least capacity others |
| UploadSessions.BoundedAndSelfPreserving | apps/api/src/uploads/upload-session.store.ts:30-51 | no history exceeds the capacity, and a create never evicts the id it creates |
| UploadSessions.AsDeployed | apps/api/src/uploads/upload-session.store.ts:30-31 | the same two laws at the capacity of 100 |
| UploadSessions.RecreateDoesNotRefresh | apps/api/src/uploads/upload-session.store.ts:48-51 | re-creating a live id empties its snapshots, evicts nothing and leaves the recency order as it was |
| UploadSessions.LiveSessionIsComplete | apps/api/src/uploads/upload-session.store.ts:60-89 | a live session holds every snapshot appended since its last creation, in order |
| Uploads.StreamUpload.constructor | apps/api/src/uploads/uploads.service.ts:167-176 | starting a stream upload creates its session in the shared store; nothing has been loaded |
| Uploads.StreamUpload.OnProgress | apps/api/src/uploads/uploads.service.ts:181-188 | an event is appended as it came and becomes the last reported byte count |
| Uploads.StreamUpload.Finish | apps/api/src/uploads/uploads.service.ts:191-195 | the final snapshot carries the last event's byte count (0 without events), the content length and the strategy |
| Uploads.FileUpload.constructor | apps/api/src/uploads/uploads.service.ts:124-125 | starting a file upload creates its session in the shared store |
| Uploads.FileUpload.OnProgress | apps/api/src/uploads/uploads.service.ts:132-138 | an event is appended as it came |
| Uploads.FileUpload.Finish | apps/api/src/uploads/uploads.service.ts:141-145 | the final snapshot carries the file size twice and the strategy |
| Uploads.InterleavingKeepsSessionsApart | apps/api/src/uploads/uploads.service.ts:120-197 | in every interleaving of uploads and polls on one store, a live session holds exactly its own upload's snapshots in order |
| Uploads.LiveUploadShowsItsEvents | apps/api/src/uploads/uploads.service.ts:161-188 | of an upload object in flight: the shared store shows exactly its own events, or nothing once evicted |
| Uploads.AnswerCall | apps/api/src/uploads/uploads.controller.ts:131-133 | one callback or poll adds its event to its own upload and leaves every other upload alone |
| Uploads.Interleave | apps/api/src/uploads/uploads.service.ts:161-188 | any interleaving of the callbacks of any number of upload objects and of polls: each has recorded its own events in order and the store shows exactly those |
| Uploads.StreamProgressNeverGoesBack | apps/api/src/uploads/uploads.service.ts:174-195 | a finished stream's list is non-decreasing exactly when its events were |
| Uploads.FileProgressNeverGoesBack | apps/api/src/uploads/uploads.service.ts:132-145 | a finished file's list is non-decreasing exactly when its events were and none exceeds the file size |
| Utf.DecodeEncode | apps/api/src/scanner-lab/marker-file.scanner.ts:71-91 | UTF-8 decoding undoes encoding, for every well-formed text |
| Utf.CutCharacter | apps/api/src/scanner-lab/marker-file.scanner.ts:87-91 | a character cut short, as by the scan budget, reads as one U+FFFD |
| Utf.StrayByte | apps/api/src/scanner-lab/marker-file.scanner.ts:87-91 | a byte that cannot begin a character reads as one U+FFFD by itself |
| Utf.EncodingExamples | apps/web/lib/text.ts:26-29 | characters of one to four bytes, a surrogate pair and a stray byte, spelled out |
| Utf.UnitsScalars | apps/web/lib/text.ts:22-30 | a JavaScript string survives encoding and decoding exactly when it has no lone surrogate; its length always does |
| Utf.ScalarsUnits | apps/web/lib/text.ts:22-30 | a well-formed text is read back from its UTF-16 form |
| MarkerScanner.ReadPrefix | apps/api/src/scanner-lab/marker-file.scanner.ts:71-91 | for every cut of the content into chunks, the text is the decoded first `budget` bytes of the whole |
| MarkerScanner.IncludesOnBytes | apps/api/src/scanner-lab/marker-file.scanner.ts:52-60 | for every byte sequence, malformed UTF-8 included, the decoded text holds an ASCII marker exactly when the bytes do |
| MarkerScanner.StreamsDeliver | apps/api/src/scanner-lab/marker-file.scanner.ts:71-91 | a stream delivers the bytes of its pieces in order, text pieces as UTF-8, and one piece what a buffer would |
| MarkerScanner.Scan | apps/api/src/scanner-lab/marker-file.scanner.ts:40-60 | infected exactly when `X-DEMO-INFECTED` is spelled within the first 4096 bytes, unknown exactly when only `X-DEMO-UNKNOWN` is, else clean, with the engine and threat names; stream and buffer bodies agree; without a body the same of the key |
| MarkerScanner.ScanOfBytesMeans | apps/api/src/scanner-lab/marker-file.scanner.ts:40-60 | status, engine and threat as a function of the delivered bytes, with the window and both markers spelled out |
| MarkerScanner.RangedPrefixScansAlike | apps/api/src/signed/scanner-confirm.ts:27-60 | a ranged download of at least the scan budget is scanned as the whole object is |
| ScannerLab.Classify | apps/api/src/scanner-lab/scanner-lab.service.ts:101-112 | the verdict is that of the encoded text, and the key is the folder, the label of the verdict and the seed; a scan of the key agrees exactly for seeds without a worse marker |
| ScannerLab.KeyShowsStatus | apps/api/src/scanner-lab/scanner-lab.service.ts:70-112 | no marker arises across the label and seed boundary: a scan of the key gives the written status exactly unless the seed carries a worse marker |
| ScannerLab.UuidSeedsAgree | apps/api/src/scanner-lab/scanner-lab.service.ts:112 | for every content and every generated seed, scanning the key gives the status of scanning the body |
| ScannerLab.SeedCanDisagree | apps/api/src/scanner-lab/scanner-lab.service.ts:112 | a seed that is itself a marker makes a clean text scan as infected by its key |
| Truncation.EncodeIntoBuffer | apps/web/lib/text.ts:26-27 | fills the buffer with whole UTF-8 sequences until the next one does not fit, reports units read and bytes written, and leaves the rest of the buffer alone |
| Truncation.TruncateToByteLength | apps/web/lib/text.ts:22-30 | for every string, lone surrogates included: the result takes at most the budget, in bytes and in code units, and is the input exactly when the input fits |
| Truncation.ReadsLongestPrefix | apps/web/lib/text.ts:23-27 | the units read are the longest prefix that splits no surrogate pair and whose UTF-8 form fits |
| Truncation.ResultFits | apps/web/lib/text.ts:14-21 | for every string the truncated text fits the budget, and everything was read exactly when the input fits |
| Truncation.CutTextIsAccepted | apps/api/src/tenants/dto/tenant-upload.dto.ts:14-23 | a non-empty text cut to the browser's limit is never empty and within the server's cap in code units |
| Truncation.PrefixExactly | apps/web/lib/text.ts:13-30 | the documented promise, the input or a prefix of it, is kept exactly if the input fits, or all units read are byte order marks, or they hold no lone surrogate and do not begin with a mark |
| Truncation.MarkBreaksThePrefix | apps/web/lib/text.ts:29 | an input that begins with the mark whose cut result is not a prefix of it |
| Truncation.LoneSurrogateBreaksThePrefix | apps/web/lib/text.ts:26-29 | a lone surrogate that is read comes back as U+FFFD |
| Truncation.LongestExactlyWithoutMarkOrLoneSurrogate | apps/web/lib/text.ts:22-30 | the result is the longest fitting prefix that splits no character exactly if the input fits, or the part read has no lone surrogate and no leading byte order mark |
| Truncation.WellFormedTextsAreCutCleanly | apps/web/lib/text.ts:14-21 | a well-formed text without a leading byte order mark is cut to its longest fitting prefix |
| Truncation.MarkIsLost | apps/web/lib/text.ts:29 | where the longest fitting prefix is the byte order mark alone, the result is empty |
| ObjectKeys.HasNoControlCharacters | apps/api/src/vault/dto/object-key.ts:47-57 | the loop over code units accepts exactly the keys whose UTF-8 bytes are all above 0x1F and none 0x7F |
| ObjectKeys.UnitsAndBytesAgree | apps/api/src/vault/dto/object-key.ts:47-57 | control codes among the units of a string and among its UTF-8 bytes imply each other, lone surrogates included |
| ObjectKeys.KeyLimitMeasuresBytes | apps/api/src/vault/dto/object-key.ts:18-34 | the limit is 1024 UTF-8 bytes: up to 341 code units a key is always within it, beyond 1024 never, and for every count above 341 some key of that many units is not |
| ObjectKeys.KeyLimitAgreesWithTruncation | apps/api/src/vault/dto/object-key.ts:26-34 | the limit measures as the truncation of text bodies does: cutting to it would keep exactly the keys within it (the application itself cuts no keys) |
| Keys.JoinSplit | apps/api/src/signed/signed.service.ts:341-350 | joining the parts of a split key gives the key back |
| Keys.SplitJoin | apps/api/src/vault/vault.service.ts:290 | splitting joined slash-free parts gives the parts back |
| Keys.CollapseNormalForm | apps/api/src/signed/signed.service.ts:347 | a collapsed key is its non-empty segments with single slashes, and a slash at an end exactly where the key had one |
| Keys.CollapseKeeps | apps/api/src/signed/signed.service.ts:347 | collapsing keeps the non-empty segments and both end slashes and never lengthens a key |
| Keys.CollapseEqual | apps/api/src/signed/signed.service.ts:347 | two keys collapse to the same text exactly when segments and end slashes agree |
| Keys.CollapseIsNormal | apps/api/src/signed/signed.service.ts:347 | collapsing is idempotent, and its fixed points are the keys without a double slash |
| Keys.TrimRemovesEndsOnly | apps/api/src/signed/signed.service.ts:348 | trimming a prefix removes all slashes at its two ends and nothing else |
| Keys.ComposeMeans | apps/api/src/signed/signed.service.ts:341-350 | refused are exactly the keys that begin with a slash or in which two dots stand between slashes or ends; every other key becomes the trimmed prefix, a slash and the collapsed key |
| Keys.SameObjectExactlyWhenSameSegments | apps/api/src/signed/signed.service.ts:341-350 | two accepted keys compose to the same stored key exactly when they have the same segments and agree on a trailing slash |
| Keys.TwiceIsOnceExactlyWithoutPrefix | apps/api/test/scanner.e2e-spec.ts:55-59 | composing twice equals composing once exactly when the trimmed prefix is empty |
| Keys.NoTwoDotsNoTraversal | apps/api/src/signed/signed.service.ts:342-346 | a key in which no two dots meet has no `..` segment |
| PublicUrls.ComponentRoundTrip | apps/api/src/vault/vault.service.ts:290 | percent-decoding undoes percent-encoding of a segment, for every well-formed text |
| PublicUrls.ComponentIsSafe | apps/api/src/vault/vault.service.ts:290 | an encoded segment holds only the characters `encodeURIComponent` keeps, and `%`, so no slash |
| PublicUrls.CharacterMeans | apps/api/src/vault/vault.service.ts:290 | exactly the listed characters stand for themselves; every other byte becomes `%` and two upper-case digits |
| PublicUrls.PathDecodes | apps/api/src/vault/vault.service.ts:288-290 | splitting the encoded path and decoding each part gives the segments of the full key |
| PublicUrls.PathIsInjective | apps/api/src/vault/vault.service.ts:288-290 | equal encoded paths come from equal keys |
| PublicUrls.DistinctKeysDistinctUrls | apps/api/src/vault/vault.service.ts:280-298 | distinct keys get distinct public URLs and distinct CDN URLs |
| PublicUrls.UrlsMean | apps/api/src/vault/vault.service.ts:286-292 | each URL is its own base without one closing slash, a slash, and the encoded full key; a CDN URL exists exactly when there is a CDN base |
| PublicUrls.PublishedIsStoredExactlyWhenNormal | apps/api/src/vault/vault.service.ts:287 | the published key is the stored key exactly when the prefix has no slash at an end and the key no double slash |
| BulkDeletion.ReportGrows | apps/api/src/tenants/tenants.service.ts:178-180 | the outcomes of two successive deletions add up to the outcome of one deletion of both key lists |
| BulkDeletion.ReportCounts | apps/api/src/tenants/tenants.service.ts:178-180 | every key is deleted or failed, and as many failed as the provider refused |
| BulkDeletion.DeletedAreNamed | apps/api/src/tenants/tenants.service.ts:178-179 | the report names as deleted exactly the keys that were not refused |
| BulkDeletion.FailedAreNamed | apps/api/src/tenants/tenants.service.ts:180 | the report names as failed exactly the refused keys, each with its reason |
| KeyOrder.LessIsByteOrder | apps/api/src/tenants/tenants.service.ts:172-175 | the listing order, by scalar values, is the order of the keys' UTF-8 bytes |
| KeyOrder.FirstKeys | apps/api/src/tenants/tenants.service.ts:172-175 | one page of a listing: the first keys in order, and whether there are more |
| KeyOrder.SortedBeyond | apps/api/src/tenants/tenants.service.ts:172-175 | listing after the n-th key of a listing shows exactly the keys behind it |
| Buckets.Bucket.Put | apps/api/src/tenants/tenants.service.ts:120-125 | stores the object under the resolved key and nowhere else; a refused key changes nothing |
| Buckets.Bucket.Head | apps/api/src/signed/confirm.service.ts:100-104 | the metadata of the stored object, or not-found, or the key's refusal |
| Buckets.Bucket.DownloadRange | apps/api/src/signed/scanner-confirm.ts:48-55 | the bytes at the positions of the range as far as the object has them, or why there are none |
| Buckets.Bucket.Delete | apps/api/src/signed/scanner-confirm.ts:61-66 | removes the resolved key and nothing else |
| Buckets.Bucket.CopyTo | apps/api/src/vault/vault.service.ts:357-363 | copies the object under the destination key of the target bucket and nothing else, or says why not, with nothing changed |
| Buckets.Bucket.List | apps/api/src/tenants/tenants.service.ts:172-175 | one page in key order, strictly after the continuation key, with a continuation exactly when more keys follow |
| Buckets.Bucket.DeleteMany | apps/api/src/tenants/tenants.service.ts:178 | deletes what the provider does not refuse, key by key, and reports each key once, in order |
| Buckets.StripResolves | apps/api/src/tenants/tenants.service.ts:176-178 | resolving the application key of a listed object leads back to the object |
| Tenants.TenantsService.Upload | apps/api/src/tenants/tenants.service.ts:116-127 | exactly one object is written, under the trimmed prefix and `tenant/category/uuid.ext`, with the encoded text as `text/plain`; both keys are reported |
| Tenants.TenantsService.List | apps/api/src/tenants/tenants.service.ts:139-152 | one page of the keys under the tenant's (category's) prefix: in order, strictly beyond the cursor, none missing between, each with both keys, size and etag of the stored object, and a next cursor exactly when a full page leaves some out |
| Tenants.FollowPages | apps/api/src/tenants/tenants.service.ts:139-152 | a client that follows the cursor from page to page terminates and sees every object under the prefix once, in order, and no other |
| Tenants.TenantsService.ClearPage | apps/api/src/tenants/tenants.service.ts:172-182 | one round: the page's keys are submitted once, what is not refused is gone, nothing else changed |
| Tenants.TenantsService.ClearNext | apps/api/src/tenants/tenants.service.ts:171-183 | a round moves a clear strictly on past the keys it showed and keeps the account of what was submitted, reported and left |
| Tenants.TenantsService.ClearPages | apps/api/src/tenants/tenants.service.ts:167-184 | deleting while paging terminates and equals one bulk deletion of the initial listing: every key submitted once, in order |
| Tenants.TenantsService.Clear | apps/api/src/tenants/tenants.service.ts:167-186 | of the tenant's keys exactly the refused ones stay and nothing else changes; `deleted` counts the others, `failed` the refused ones, and the failures name exactly those with the provider's reasons; every key was submitted once, in order |
| Tenants.ClearIsExact | apps/api/src/tenants/tenants.service.ts:154-186 | deleted + failed is the initial number of keys, exactly the refused keys stay under the prefix, each failure is a refusal, nothing outside changes |
| Tenants.RestIsUndisturbed | apps/api/src/tenants/tenants.service.ts:171-183 | after deleting earlier pages, listing from the cursor shows exactly the rest of the initial listing |
| Tenants.TenantKeyIsNormal | apps/api/src/tenants/tenants.service.ts:116-127 | the library takes a composed tenant key as it is, and it lies under the tenant's category prefix |
| Tenants.KeysTellUploadsApart | apps/api/src/tenants/tenants.service.ts:116-118 | two uploads share a key only if tenant, category, generated id and extension all agree |
| Tenants.ScopesAreDisjoint | apps/api/src/tenants/dto/tenant-params.dto.ts:16-18 | no key lies in the scopes of two tenants, even when one slug is a prefix of the other |
| TenantIsolation.Perform | apps/api/src/tenants/tenants.service.ts:116-186 | the service's methods are exactly the steps of the runs below |
| TenantIsolation.OwnCall | apps/api/src/tenants/tenants.service.ts:116-186 | a tenant's call gets the same answer on two buckets that agree on its scope, and keeps them in agreement |
| TenantIsolation.ForeignCall | apps/api/src/tenants/tenants.service.ts:116-186 | another tenant's call changes nothing in this tenant's scope |
| TenantIsolation.NonInterference | apps/api/src/tenants/tenants.service.ts:116-186 | in every interleaving, every answer a tenant gets equals its answer in the run without another tenant's calls |
| Confirm.EntryAllowsMeans | apps/api/src/signed/confirm.service.ts:70-78 | an entry allows everything, exactly the types of one family, or exactly one type |
| Confirm.WhitelistMeans | apps/api/src/signed/confirm.service.ts:63-79 | the MIME check passes exactly when there is no whitelist, or the type is present and some entry names it |
| Confirm.ScannerConfirm.Scan | apps/api/src/signed/scanner-confirm.ts:48-69 | the verdict is that of the whole object for every length and every cut of the download; exactly an infected object is deleted |
| Confirm.EveryCutArises | apps/api/src/signed/scanner-confirm.ts:48-60 | every way of cutting bytes into pieces, empty ones included, is covered |
| Confirm.ConfirmService.Confirm | apps/api/src/signed/confirm.service.ts:100-146 | the report and the new state as functions of the stored object, the policy and the key; every error case |
| Confirm.ConfirmedMeans | apps/api/src/signed/confirm.service.ts:100-146 | each check of the report by itself: size within the limit if any; type named by the whitelist if any, as everything, a family or itself; neither marker within the first 4096 bytes. Confirmed exactly when all three hold |
| Confirm.ConfirmAgain | apps/api/src/signed/confirm.service.ts:100-117 | confirming again reports the same, or not-found for a removed object, and changes nothing more |
| Confirm.HistoryOfKey | apps/api/src/signed/scanner-confirm.ts:48-69 | after every run of uploads and confirms a key holds what last landed there, unless that is infected and was confirmed since; then it is absent |
| Confirm.ConfirmedObjectsStay | apps/api/src/signed/confirm.service.ts:100-117 | an object that is not infected, so every confirmed one, stays as it is and is reported on alike until the next upload to its key |
| Vault.RangeGuardIsExact | apps/api/src/vault/vault.service.ts:155-179 | the guard's formula is the exact encoded size, and the encoding fits 50 MiB exactly up to 39,321,600 bytes |
| Vault.VaultService.DownloadRange | apps/api/src/vault/vault.service.ts:155-181 | which ranges are refused and why; otherwise the text decodes to exactly the object's bytes at the positions of the range and is within the limit |
| Vault.VaultService.Exists | apps/api/src/vault/vault.service.ts:256-266 | true when present, false only for a confirmed absence, every other error passed on |
| Vault.VaultService.DeleteOne | apps/api/src/vault/vault.service.ts:314-318 | the key is absent afterwards, nothing else changes, and the warning says whether there was nothing to delete |
| Vault.VaultService.Copy | apps/api/src/vault/vault.service.ts:345-373 | which error when, with nothing changed; with distinct locations a copy, or a rename that moves the object unchanged; no other object of either bucket changes |
| Vault.RenameLosesExactly | apps/api/src/vault/vault.service.ts:345-373 | a rename within a bucket loses its object exactly if the keys have the same segments and agree on a trailing slash and the provider accepts a copy onto itself; it is refused with nothing changed exactly if the provider does not |
| Vault.RespellingCanLose | apps/api/src/vault/dto/copy.dto.ts:16-25 | `a/b` renamed to `a//b`, both admitted: lost with one kind of provider, refused with the other |
| Base64.EncodedLength | apps/api/src/vault/vault.service.ts:165-168 | `ceil(n / 3) * 4` is the exact length of the encoding |
| Base64.DecodeBase64 | apps/web/components/vault/HexPreview.tsx:32-39 | fails exactly when the text is not base64, else a fresh array of exactly the decoded bytes |
| Base64.DecodeEncode | apps/web/components/vault/HexPreview.tsx:26-39 | the browser decodes exactly the bytes the server encoded, for every byte sequence |
| Base64.SpacesDoNotMatter | apps/web/components/vault/HexPreview.tsx:33 | ASCII white space anywhere in a text does not change what it decodes to |
| Base64.TestVectors | apps/api/src/vault/vault.service.ts:180 | three test vectors of RFC 4648 |
| Base64.AlphabetIs | apps/web/components/vault/HexPreview.tsx:33 | which characters are symbols, and for what |
| HexPreview.OffsetReadsBack | apps/web/components/vault/HexPreview.tsx:48-50 | an offset can be read back from its text of at least eight upper-case digits, exactly eight below 2^32 |
| HexPreview.SplitIntoRows | apps/web/components/vault/HexPreview.tsx:64-67 | the rows concatenate to the bytes, sixteen per row except the last, which is not empty, at offsets 16 apart |
| HexPreview.Preview | apps/web/components/vault/HexPreview.tsx:56-67 | nothing for a text that is not base64, else the rows of the first `maxBytes` bytes |
| HexPreview.RowReadsBack | apps/web/components/vault/HexPreview.tsx:82-90 | every row is 47 columns wide, each byte can be read back at its column in upper-case digits, missing bytes are blank, and the ASCII column shows exactly the printable bytes as themselves |
| DirectUpload.SplitIntoParts | apps/web/lib/direct-upload.ts:74-82 | the parts concatenate to the file, all but the last are full, the last is not empty; their number is the part count, or none for an empty file |
| DirectUpload.PartsAreUnique | apps/web/lib/direct-upload.ts:74-82 | there is only one such split of a file |
| DirectUpload.PartsNeeded | apps/web/lib/direct-upload.ts:91-93 | a non-empty file's part count is the one number of full-size parts that hold it without a part to spare |
| DirectUpload.PartCountIsLeast | apps/web/lib/direct-upload.ts:91-93 | the part count is the least positive number of parts that hold the file; one for an empty file |
| DirectUpload.PartLimit | apps/api/src/signed/dto/multipart-urls.dto.ts:18 | at the default part size a file stays within 1000 parts exactly up to 5,242,880,000 bytes |
| Breadcrumbs.ParsePrefixToCrumbs | apps/web/components/vault/FolderBreadcrumbs.tsx:34-45 | the root, then one crumb per non-empty segment with the path up to it |
| Breadcrumbs.CrumbLeadsToItsTrail | apps/web/components/vault/FolderBreadcrumbs.tsx:34-45 | the i-th crumb's prefix parses to exactly the first i + 1 crumbs |
| Breadcrumbs.ClickLeadsToItsTrail | apps/web/components/vault/FolderBreadcrumbs.tsx:63-92 | a click on the i-th crumb leads to the first i + 1 crumbs exactly unless a folder other than the root is named `root` |
| Breadcrumbs.RootFolderGoesHome | apps/web/components/vault/FolderBreadcrumbs.tsx:68-71 | the crumb of the folder `root/` leads to the root |
| Breadcrumbs.TrailIsUnique | apps/web/components/vault/FolderBreadcrumbs.tsx:34-45 | the trail over given folders is unique |
| Breadcrumbs.CrumbsNest | apps/web/components/vault/FolderBreadcrumbs.tsx:41-42 | each crumb's prefix properly extends the one before by its name and a slash |
| Breadcrumbs.LastCrumbIsCleanPrefix | apps/web/components/vault/FolderBreadcrumbs.tsx:34-45 | the last crumb is the prefix without empty segments and with one closing slash; exactly when it is the prefix itself |
| Calendar.YearHasItsLength | apps/api/src/signed/signed.service.ts:149 | consecutive first days lie 365 or 366 days apart by the leap rule, and 1970 begins at day 0 |
| Calendar.MonthTable | apps/api/src/signed/signed.service.ts:149 | the days before each month, in leap years and others |
| Calendar.TimeOfCivilOf | apps/api/src/signed/signed.service.ts:307 | the fields a time value prints are a calendar date that names that time value |
| Calendar.CivilOfTimeOf | apps/api/src/signed/signed.service.ts:149 | a calendar date is read back from its time value |
| Calendar.CalendarOrderIsTimeOrder | apps/api/src/signed/signed.service.ts:149 | earlier on the calendar is earlier in time and the other way round; no two dates share a time value |
| Expiry.AmzDateParses | apps/api/src/signed/signed.service.ts:140-150 | every calendar date in the basic form parses to its time value, whatever the engine does with impossible dates |
| Expiry.AmzParsesExactly | apps/api/src/signed/signed.service.ts:140-150 | which strings are read at all: fourteen digits, `T` and `Z` in place, a month, a day of it, and a time of day or 24:00:00 |
| Expiry.SigningOrder | apps/api/src/signed/signed.service.ts:140-150 | signing instants are ordered exactly as their strings, and equal only when those are |
| Expiry.PrintsAsSigned | apps/api/src/signed/signed.service.ts:140-150 | a signing instant prints as the date that was signed, field by field |
| Expiry.IsoRoundTrip | apps/api/src/signed/signed.service.ts:307 | every date prints as a string that parses back to it, six-digit and negative years included |
| Expiry.ExpiryChain | apps/api/src/signed/signed.service.ts:109-132 | which inputs yield a provider error, an invalid date or a view; a view's expiry parses back to exactly signing instant + TTL * 1000; requested, effective and maximal TTL stand in their places, and clamped is exactly effective below requested |
| Expiry.ExpiryWithinFourDigitYears | apps/api/src/signed/signed.service.ts:304-313 | a calendar date and a TTL that end within year 9999 always yield a view, with a four-digit year |
| Expiry.CountdownRuns | apps/web/components/transfer/TtlCountdown.tsx:54-65 | at the signing instant the countdown shows the whole TTL, before the expiry the exact rest, and zero exactly from the expiry on |

## Left out

- The storage library's internals, the AWS SDK, the provider and HTTP: `Bucket` stands for them. It resolves keys as the application's own composition does, and a listing prefix is put behind the global prefix as given.
- Continuation tokens: the provider's token is opaque; here it is the last listed stored key, and any string is accepted as a cursor.
- Per-key failures of a bulk deletion and its reasons are an input (`denied`), one for the whole clear.
- A whole-request failure of a list, upload or bulk deletion, which ends a service call with the library's error.
- Concurrent writers during a clear, and a PUT between the head, the download and the delete of a confirm: each call is one step.
- Whether a provider honours a byte range on an empty object is a constant of the bucket (`strictRanges`); on any other object it does.
- The no-op confirm scanner and its `skipped` status.
- Whether a provider refuses to copy an object onto itself with nothing changed, as Amazon S3 does, is a constant of the bucket (`refusesSelfCopy`); both are covered.
- Failures while deleting an infected object in a confirm.
- Generated UUIDs, ETags and the current time, which are parameters; SHA-256 and the idempotency records, which are not modelled.
- Truncation.EncodeIntoBuffer: the encoder's own byte-wise stores within one character are one step.
- Keys and published URLs with lone surrogates: `encodeURIComponent` throws on them; `Keys`, `PublicUrls` and `Breadcrumbs` are about well-formed texts.
- Expiry.ExpiryChain: `X-Amz-Expires` is taken as its numeric value, an integer or not finite; a fractional TTL is not modelled, and neither is the URL parsing that finds the two parameters.
- Expiry.AmzDateParses: for a day its month does not have, such as 30 February, engines differ; both behaviours are covered by the parameter `rolls`, but no order is claimed for such dates.
- Expiry.SigningOrder: `24:00:00`, which the date grammar admits as the end of a day, is parsed but not among the ordered dates, because it names the same instant as the next midnight.
- Date strings of other shapes than those the application writes and reads.
- The TTL clamp itself, which happens inside the library.
- The colour and ring arithmetic of the countdown and of the other panels.
- The table layout and the notices of the hex panel.
- Part sizes of zero, with which the splitting loop would not end.
- The file extension of upload keys, upload categories, size hints to the library and its choice of the multipart strategy: the strategy is an input.
- Enforcement of scan verdicts by the library in the scanner lab, and the removal probe.
- NestJS wiring, controllers, filters, request schemas beyond the alphabets and bounds used here, React components and query hooks.
- The error catalogue, trigger registry, provider recipes, configuration redaction, environment schema, formatting helpers and the scoped-storage memo: they would add only easy members.
