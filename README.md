# server-upload: decision logic of the upload SDK, in Dafny

This project models the three pieces of decision logic at the heart of the
upload SDK. Around them, the SDK is a thin layer over a cloud object store,
a multipart-upload middleware and an image library.

- **Bucket client registry** (`src/utils/s3/index.ts`). The SDK keeps one
  process-wide map from bucket name to a storage client, modelled as class
  `S3Clients.S3Registry`. `createS3Clients` fills that map in list order.
  A later configuration with the same name overwrites an earlier one.
  Nothing is ever removed. A single try/catch surrounds the whole loop, so a
  construction fault at index k leaves only configurations 0..k-1 written.
  The fault is logged and never reaches the caller. The loop is a `while`
  loop whose result is tied to the function `Populate`.
- **Object operations** (`src/utils/s3/functions.ts`). `uploadFile`,
  `generatePreSignedUrl` and `deleteFile` are methods that read the registry.
  The provider's answer and the fresh uuid are parameters. Each method
  returns three things:
  - the request it handed to the provider, if it got that far;
  - what it logged;
  - how its promise settles: resolved with a value, resolved with nothing, or
    rejected.

  The pure parts are functions:
  - the folder regular expression, in module `FolderPath`;
  - the object key `folder/uuid` or the bare `uuid`;
  - the effective privacy `explicit ?? firstMatchingConfig ?? true`;
  - the ACL `private` / `public-read`.
- **MIME allow-list filter** (`src/utils/multer/index.ts`). `fileFilter` is
  modelled as the sequence of callback invocations it makes for a file.
  `multerMiddleware` is modelled as the options record it hands to multer.

The folder regex `^/[^/\0]+(?:/[^/\0]+)*[^/\0]$` (src/utils/s3/functions.ts:23)
is stated twice. The first statement is the set of strings its structure
describes (`MatchesFolderRegex`). The second is a test over the
`/`-separated segments (`FolderRegexTest`). The two are proved equal. A
consequence is the regex's length quirk: the last segment must have at least
two characters, so `/a` and `/x/b` are rejected while `/ab` and `/x/bc` are
accepted. The error message at functions.ts:50 describes the rule as
"start with '/' and not end with '/' and must not contain invalid
characters". It does not mention the length rule. This model follows the
regex as written.

The source's doc comments promise errors that the code never lets reach the
caller. In each case this model follows the code:
- The `@throws` line at functions.ts:34 promises an error for a missing
  client, an invalid folder and a missing content type. The code warns and
  returns undefined for a missing client (lines 44-46). It throws the other
  two inside the outer try, which catches and logs them (lines 48-56 and
  89-91). The call resolves with nothing in all three cases.
- The `@throws` lines at functions.ts:101 and :133 promise an error for a
  missing client. `generatePreSignedUrl` and `deleteFile` warn and return
  undefined instead (lines 109-112 and 137-140). Their provider failures are
  also caught and logged (lines 122-124 and 150-152).
- The `@throws` line at src/utils/s3/index.ts:11 promises an error when a
  client cannot be created. The try/catch around the whole loop (lines
  14-33) logs the error instead. It also stops the loop at the first fault.
- Only `uploadFile` can reject: it returns its inner upload promise without
  awaiting it (functions.ts:68-88), so the outer try does not see a provider
  failure.

Module layout: `Types` (the records of `src/types.ts`, `Option`, log
entries), `FolderPath`, `S3Clients`, `S3Functions`, `Multer`.

## Model

| member | source | states |
|---|---|---|
| `FolderPath.Split` | src/utils/s3/functions.ts:23 | The `/`-separated segments of a string: never empty, each free of `/`, and joining them with `/` gives back the string. |
| `FolderPath.SplitJoin` | src/utils/s3/functions.ts:23 | Splitting undoes joining `/`-free parts. This is the inverse direction of `Split`'s round trip. |
| `FolderPath.SplitConcat` | src/utils/s3/functions.ts:23 | Splitting `a + "/" + b` gives the segments of `a` followed by the segments of `b`. |
| `FolderPath.MatchesFolderRegex` | src/utils/s3/functions.ts:23 | The strings the regex matches: `"/" + Join(segs) + [c]`, with at least one segment, every segment a non-empty `[^/\0]` run, and `c` a `[^/\0]` character. |
| `FolderPath.FolderRegexTestMatchesRegex` | src/utils/s3/functions.ts:23 | The segment test accepts exactly the strings the regex matches. Both directions are proved. Accepted means: a leading `/`, every segment non-empty and free of `/` and NUL, and a last segment of at least 2 characters. |
| `FolderPath.ShortLastSegmentRejected` | src/utils/s3/functions.ts:23 | Any folder ending in a one-character segment is rejected, whatever precedes it. |
| `FolderPath.TrailingSlashRejected` | src/utils/s3/functions.ts:23 | Any folder ending in `/` is rejected. |
| `FolderPath.AcceptedHasNoNulOrEmptySegment` | src/utils/s3/functions.ts:23 | An accepted folder contains no NUL character and no `//`. |
| `FolderPath.FolderExamples` | src/utils/s3/functions.ts:23 | `/ab` and `/x/bc` are accepted. `/a`, `/x/b`, `ab`, `/ab/` and `//ab` are rejected. |
| `FolderPath.FolderRegexTest` | src/utils/s3/functions.ts:23-48 | `folderRegex.test(folder)`: a leading `/`, then the segments of the rest, which must all be non-empty `[^/\0]` runs with the last at least 2 long. An accepted folder is at least 2 characters long, starts with `/`, does not end with `/` and has no NUL. |
| `S3Clients.S3Registry.constructor` | src/utils/s3/index.ts:5 | The registry starts empty. |
| `S3Clients.S3Registry.CreateS3Clients` | src/utils/s3/index.ts:13-34 | Configs are written in index order, up to the first construction fault. The new map is `Populate` of the old map over that prefix. Its keys are the old keys plus the prefix's bucket names. One "Creating S3 Client" line is logged per config reached. A fault logs its error last and is never thrown. |
| `S3Clients.ClientFor` | src/utils/s3/index.ts:20-29 | The client built for a config: its `bucketRegion`, with credentials from its `accessKey` and `secretKey`. |
| `S3Clients.Populate` | src/utils/s3/index.ts:15-29 | The reference definition of the loop: the map after writing `name := ClientFor(config)` for each config in order, starting from the old map. `CreateS3Clients` is proved equal to it. |
| `S3Clients.Processed` | src/utils/s3/index.ts:14-33 | The definition of how far the loop gets: the fault's index when a fault falls inside the list, otherwise the list's length. That exactly this many configs are written is proved by `CreateS3Clients` and `FaultKeepsPrefixOnly`. |
| `S3Clients.LastIndexOf` | src/utils/s3/index.ts:23 | For a configured name: the index of a config with that name, after which no config has that name. |
| `S3Clients.CreationLog` | src/utils/s3/index.ts:16-18 | One `Info("Creating S3 Client for Bucket: " + name)` per config, in order. |
| `S3Clients.PopulateKeys` | src/utils/s3/index.ts:15-29 | After populating, the keys are exactly the old keys plus every configured bucket name. |
| `S3Clients.EveryConfiguredBucketRegistered` | src/utils/s3/index.ts:15-29 | Every configured bucket name is a key after a run without faults. |
| `S3Clients.PopulateLastWriteWins` | src/utils/s3/index.ts:20-29 | A name maps to the client built from the last config carrying it. That client has the config's own region, access key and secret key. |
| `S3Clients.RegisteredClientIsLastConfigs` | src/utils/s3/index.ts:23 | A configured name maps to the client of the config at `LastIndexOf`. |
| `S3Clients.PopulateLeavesOthers` | src/utils/s3/index.ts:5-23 | A name no config carries keeps its old entry, or stays absent. |
| `S3Clients.PopulateNeverRemoves` | src/utils/s3/index.ts:5-23 | No key is ever removed. Entries for names no config carries are unchanged. |
| `S3Clients.FaultKeepsPrefixOnly` | src/utils/s3/index.ts:14-33 | With a fault at index k, names of configs 0..k-1 are registered. A name only later configs carry is registered only if it already was. |
| `S3Functions.FolderGiven` | src/utils/s3/functions.ts:48 | The truthiness of `folder`: present and non-empty. |
| `S3Functions.FolderPasses` | src/utils/s3/functions.ts:48 | The guard `folder && !folderRegex.test(folder)` does not fire: no folder is given, or it passes `FolderRegexTest`. |
| `S3Functions.ObjectKey` | src/utils/s3/functions.ts:72 | `folder ? folder + "/" + uuid : uuid`. The key always ends with the uuid. With a folder, it is the folder, then `/`, then the uuid. |
| `S3Functions.FindConfig` | src/utils/s3/functions.ts:63 | `find` returns nothing exactly when no config has the name. Otherwise it returns the config at the first index with that name. |
| `S3Functions.EffectivePrivacy` | src/utils/s3/functions.ts:62-66 | An explicit flag wins, `false` included. Otherwise the first matching config's flag is used. With no match, the file is private. |
| `S3Functions.AclFor` | src/utils/s3/functions.ts:74 | The ACL is `"private"` exactly when private, and `"public-read"` exactly when not. |
| `S3Functions.UploadFile` | src/utils/s3/functions.ts:36-92 | Checks run in order: membership (warn, resolve nothing), then folder (log error, resolve nothing), then content type (log error, resolve nothing). An upload is built exactly when all three pass. It carries the registered client, the key, the content type and the ACL of the effective privacy. The key is the bare uuid without a folder. Under a folder it starts with `/` and its segments are the folder's followed by the uuid. Provider success resolves with the returned Key; provider failure rejects with its error, unlogged. |
| `S3Functions.GeneratePreSignedUrl` | src/utils/s3/functions.ts:103-125 | An unregistered bucket gives a warning and nothing. Otherwise a GetObject URL is signed for `expiresIn`, or 3600 when it is undefined. A URL is returned exactly when registered and signing succeeds. A signing failure is logged and gives nothing. |
| `S3Functions.DeleteFile` | src/utils/s3/functions.ts:135-153 | An unregistered bucket gives a warning and nothing. Otherwise a DeleteObject command is sent. The result is `true` exactly when registered and the command completes, and is never `false`. A successful delete logs nothing. A failure is logged and gives nothing. |
| `S3Functions.KeyWithoutFolder` | src/utils/s3/functions.ts:48-72 | With no folder, or an empty one, the key is the bare uuid. |
| `S3Functions.KeyUnderFolder` | src/utils/s3/functions.ts:72 | With an accepted folder, the key is `folder + "/" + uuid`. It starts with `/`, and its segments are the folder's followed by the uuid. |
| `S3Functions.KeyUnderFolderIsAcceptedPath` | src/utils/s3/functions.ts:23-72 | A key built under an accepted folder from a uuid of 2 or more segment characters is itself an accepted folder path. |
| `S3Functions.DuplicateNamesFirstAndLast` | src/utils/s3/functions.ts:63 | With duplicate bucket names, the registry holds the last config's client. The privacy default reads the first config's flag. |
| `Multer.MimeAllowed` | src/utils/multer/index.ts:16-20 | The reference decision: no allow-list (`!allowedMimes`) admits everything, otherwise the MIME type must be on the list. |
| `Multer.FileFilter` | src/utils/multer/index.ts:15-25 | The callback is called exactly once. With no list, the file is accepted. With an unlisted MIME type, the call is rejected with "Invalid mime type" and no accept flag. With a listed MIME type, the file is accepted. |
| `Multer.FileFilterAcceptsIffAllowed` | src/utils/multer/index.ts:16-24 | A file is accepted exactly when there is no allow-list or its MIME type is listed. |
| `Multer.EmptyAllowListRejectsAll` | src/utils/multer/index.ts:16-21 | A present but empty allow-list rejects every file. |
| `Multer.FileFilterIgnoresRequest` | src/utils/multer/index.ts:15-25 | The decision depends only on `file.mimetype` and the allow-list, never on the request. |
| `Multer.MulterMiddleware` | src/utils/multer/index.ts:34-42 | `limits.fileSize` is exactly `maxSize`. The installed filter is `fileFilter` over the given allow-list. |
| `Multer.MiddlewareFilterAcceptsIffAllowed` | src/utils/multer/index.ts:4-41 | The middleware's filter accepts a file exactly when the allow-list admits its MIME type, for every request and file. Memory storage is not a proved fact: the `Storage` type has memory storage as its only value. |

## Left out

- Storage-provider calls are not modelled; their outcomes are parameters (`UploadResult`, `SignResult`, `DeleteResult`, `ClientFault`). These are `new S3Client`, `new Upload(...).done()`, `getSignedUrl` and `DeleteObjectCommand`/`send`. A client is represented by the region and credentials it was built from.
- `uuidv4()` is randomness. The uuid is a parameter of `UploadFile`.
- Logging only writes to the console. Each operation returns the entries it would log instead.
- `S3Functions.UploadFile`: the bucket configuration list is a parameter. The source reads it as `UploadAgent.options` (functions.ts:59), where `UploadAgent` is the default import of `src/index.ts` (functions.ts:20). That file, as given, has no default export, and the agent class it imports is not part of this model. If reading `UploadAgent.options` or `options.s3` fails, the resulting TypeError is thrown inside the outer try (functions.ts:59-63). It is logged at line 90, and the call resolves with nothing after all three checks have passed and before any upload is built. The model does not represent that path. It assumes the options are the agent's configuration list.
- `S3Functions.UploadFile`: if `new Upload(...)` threw inside the async promise executor, the promise would never settle. Promise timing beyond "resolved with a value / resolved with nothing / rejected" is not modelled, so this case is not represented.
- `S3Functions.UploadFile`: the registry check `!s3Clients[bucketName]` is modelled as map membership. In JavaScript, a bucket name that is an inherited property of a plain object (such as `toString`) also passes the check. The same holds for `GeneratePreSignedUrl` and `DeleteFile`.
- `S3Clients.S3Registry.CreateS3Clients`: writing under the bucket name `__proto__` replaces the registry object's prototype instead of adding an entry. The model treats every name as an ordinary key.
- `S3Functions.UploadFile`: `contentType` is a string. An undefined content type behaves like the empty string, which the model covers.
- `FolderPath.FolderRegexTest`: characters are Dafny characters (Unicode scalar values). The regex, which has no `u` flag, matches UTF-16 code units instead. So an astral character (outside the Basic Multilingual Plane) counts as two characters in the source and one in the model. For example, `"/😀"` matches the source's regex: `[^/\0]+` takes the high surrogate and the final `[^/\0]` the low one. The model rejects it. A last segment of one astral character is accepted by the source and rejected by the model. Lone surrogates are not modelled either.
- `S3Functions.GeneratePreSignedUrl`: `expiresIn` is a JavaScript number (src/types.ts:48) and may be fractional or NaN. It is modelled as an `int`, passed through unchanged.
- `Multer.MulterMiddleware`: `maxSize` is a JavaScript number (src/types.ts:65) and may be fractional or NaN. It is modelled as an `int`, passed through unchanged.
- Image recompression (`src/utils/sharp/index.ts`) is not part of this model. It is image processing inside a foreign library.
- multer's middleware itself is not modelled: request parsing, in-memory buffering, enforcing `limits.fileSize`, and filling `req.file`/`req.files`. Only the options handed to it are.
- The façade (`src/index.ts` and the `UploadAgent` it imports) is not part of this model. This covers its image-optimisation branch, its content sniffing and its concurrent multi-file fan-out.
