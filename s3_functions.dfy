/**
 * The object operations: `uploadFile`, `generatePreSignedUrl` and
 * `deleteFile`. Each reads the client registry and calls the storage
 * provider; the provider's answer and the fresh uuid are inputs, and each
 * operation returns the request it handed to the provider (if it got that
 * far), what it logged, and how its promise settles.
 */
module S3Functions {
  import opened Types
  import opened FolderPath
  import opened S3Clients

  const DefaultExpiresIn: int := 3600

  const InvalidFolderMessage: string :=
    "Invalid folder path. It must start with '/' and not end with '/' and must not contain invalid characters."
  const InvalidContentTypeMessage: string := "Invalid content type"

  function ClientNotFoundMessage(bucketName: string): string {
    "S3 Client not found - " + bucketName
  }

  /** How the `uploadFile` promise settles: resolved with nothing, resolved with a key, or rejected. */
  datatype UploadOutcome = Nothing | Resolved(key: string) | Rejected(error: string)

  /** What `upload.done()` does: completes with the stored object's Key, or rejects. */
  datatype UploadResult = UploadDone(key: string) | UploadFailed(error: string)

  /** What `getSignedUrl` does: produces a URL, or rejects. */
  datatype SignResult = Signed(url: string) | SignFailed(error: string)

  /** What `send(new DeleteObjectCommand(...))` does: completes, or rejects. */
  datatype DeleteResult = DeleteDone | DeleteFailed(error: string)

  /** The upload handed to the provider: its client and its `PutObjectCommandInput`. */
  datatype PutObjectRequest = PutObjectRequest(
    client: S3Client,
    bucket: string,
    body: seq<bv8>,
    key: string,
    contentType: string,
    acl: string)

  /** A `getSignedUrl(client, new GetObjectCommand({ Bucket, Key }), { expiresIn })` call. */
  datatype SignRequest = SignRequest(client: S3Client, bucket: string, key: string, expiresIn: int)

  /** A `client.send(new DeleteObjectCommand({ Bucket, Key }))` call. */
  datatype DeleteRequest = DeleteRequest(client: S3Client, bucket: string, key: string)

  // ---------------------------------------------------------------- pure parts of uploadFile

  /** JavaScript truthiness of the optional folder: present and non-empty. */
  predicate FolderGiven(folder: Option<string>) {
    folder.Some? && folder.value != []
  }

  /** The folder check `folder && !folderRegex.test(folder)` lets this folder through. */
  predicate FolderPasses(folder: Option<string>) {
    !FolderGiven(folder) || FolderRegexTest(folder.value)
  }

  /** The object key: `${folder}/${uuid}` when a folder is given, the bare uuid otherwise. */
  function ObjectKey(folder: Option<string>, uuid: string): (key: string)
    ensures |uuid| <= |key| && key[|key| - |uuid|..] == uuid
    ensures FolderGiven(folder) ==> |key| == |folder.value| + 1 + |uuid|
    ensures FolderGiven(folder) ==> key[..|folder.value|] == folder.value && key[|folder.value|] == '/'
  {
    if FolderGiven(folder) then folder.value + "/" + uuid else uuid
  }

  /** `options.s3.find(item => item.bucketName === bucketName)`: the first configuration with that name. */
  function FindConfig(options: seq<BucketConfig>, bucketName: string): (r: Option<BucketConfig>)
    ensures r.None? <==> forall i :: 0 <= i < |options| ==> options[i].bucketName != bucketName
    ensures r.Some? ==> exists i :: 0 <= i < |options| && options[i] == r.value && FirstWithName(options, bucketName, i)
    decreases |options|
  {
    if options == [] then None
    else if options[0].bucketName == bucketName then
      assert FirstWithName(options, bucketName, 0);
      Some(options[0])
    else
      var r := FindConfig(options[1..], bucketName);
      if r.Some? then
        var i :| 0 <= i < |options[1..]| && options[1..][i] == r.value && FirstWithName(options[1..], bucketName, i);
        assert FirstWithName(options, bucketName, i + 1);
        r
      else
        r
  }

  /** Index i holds the first configuration with the given bucket name. */
  predicate FirstWithName(options: seq<BucketConfig>, bucketName: string, i: nat) {
    && i < |options|
    && options[i].bucketName == bucketName
    && forall j :: 0 <= j < i ==> options[j].bucketName != bucketName
  }

  /**
   * Effective privacy, `isPrivateAccess ?? (options.s3.find(...)?.isPrivateAccess ?? true)`:
   * an explicit flag (false included) wins; otherwise the first matching
   * configuration's flag; otherwise private.
   */
  function EffectivePrivacy(explicit: Option<bool>, options: seq<BucketConfig>, bucketName: string): (isPrivate: bool)
    ensures explicit.Some? ==> isPrivate == explicit.value
    ensures explicit.None? ==> forall i: nat :: FirstWithName(options, bucketName, i) ==> isPrivate == options[i].isPrivateAccess
    ensures explicit.None? && (forall i :: 0 <= i < |options| ==> options[i].bucketName != bucketName) ==> isPrivate
  {
    match explicit
    case Some(b) => b
    case None =>
      var found := FindConfig(options, bucketName);
      if found.Some? then
        var k :| 0 <= k < |options| && options[k] == found.value && FirstWithName(options, bucketName, k);
        FirstWithNameUnique(options, bucketName);
        found.value.isPrivateAccess
      else true
  }

  /** At most one index is the first with a given name. */
  lemma FirstWithNameUnique(options: seq<BucketConfig>, bucketName: string)
    ensures forall i: nat, j: nat :: FirstWithName(options, bucketName, i) && FirstWithName(options, bucketName, j) ==> i == j
  {
  }

  /** The canned ACL for a visibility: "private" exactly when private, "public-read" otherwise. */
  function AclFor(isPrivate: bool): (acl: string)
    ensures acl == "private" <==> isPrivate
    ensures acl == "public-read" <==> !isPrivate
  {
    if isPrivate then "private" else "public-read"
  }

  // ---------------------------------------------------------------- the operations

  /**
   * `uploadFile`. Checks run in order: registered client (else warn and
   * resolve with nothing), folder syntax, non-empty content type (each
   * failure is thrown inside the outer try, logged, and the call resolves
   * with nothing). Past the checks the upload is built and its promise is
   * returned un-awaited, so a provider rejection reaches the caller.
   */
  method UploadFile(
    registry: S3Registry, options: seq<BucketConfig>, args: UploadFileArgs,
    uuid: string, provider: UploadResult)
    returns (sent: Option<PutObjectRequest>, logged: Option<LogEntry>, outcome: UploadOutcome)
    ensures args.bucketName !in registry.clients ==>
      sent.None? && outcome == Nothing && logged == Some(Warn(ClientNotFoundMessage(args.bucketName)))
    ensures args.bucketName in registry.clients && !FolderPasses(args.folder) ==>
      sent.None? && outcome == Nothing && logged == Some(Error(InvalidFolderMessage))
    ensures args.bucketName in registry.clients && FolderPasses(args.folder) && args.contentType == [] ==>
      sent.None? && outcome == Nothing && logged == Some(Error(InvalidContentTypeMessage))
    ensures sent.Some? <==>
      args.bucketName in registry.clients && FolderPasses(args.folder) && args.contentType != []
    ensures sent.Some? ==> sent.value == PutObjectRequest(
      registry.clients[args.bucketName], args.bucketName, args.file,
      ObjectKey(args.folder, uuid), args.contentType,
      AclFor(EffectivePrivacy(args.isPrivateAccess, options, args.bucketName)))
    ensures sent.Some? ==> logged.None? && outcome == match provider
      case UploadDone(key) => Resolved(key)
      case UploadFailed(e) => Rejected(e)
    ensures outcome.Resolved? || outcome.Rejected? ==> sent.Some?
    ensures sent.Some? && !FolderGiven(args.folder) ==> sent.value.key == uuid
    ensures sent.Some? && FolderGiven(args.folder) && '/' !in uuid ==>
      sent.value.key[0] == '/' && Split(sent.value.key[1..]) == Split(args.folder.value[1..]) + [uuid]
  {
    if args.bucketName !in registry.clients {
      return None, Some(Warn(ClientNotFoundMessage(args.bucketName))), Nothing;
    }
    if FolderGiven(args.folder) && !FolderRegexTest(args.folder.value) {
      return None, Some(Error(InvalidFolderMessage)), Nothing;
    }
    if args.contentType == [] {
      return None, Some(Error(InvalidContentTypeMessage)), Nothing;
    }
    if FolderGiven(args.folder) && '/' !in uuid {
      KeyUnderFolder(args.folder.value, uuid);
    }
    var isPrivate := EffectivePrivacy(args.isPrivateAccess, options, args.bucketName);
    var request := PutObjectRequest(
      registry.clients[args.bucketName], args.bucketName, args.file,
      ObjectKey(args.folder, uuid), args.contentType, AclFor(isPrivate));
    sent, logged := Some(request), None;
    match provider {
      case UploadDone(key) => outcome := Resolved(key);
      case UploadFailed(e) => outcome := Rejected(e);
    }
  }

  /**
   * `generatePreSignedUrl`: nothing for an unregistered bucket; otherwise
   * sign a GetObject request for `expiresIn` seconds (3600 when undefined).
   * The signing call is awaited inside the try, so its failure is logged and
   * the call resolves with nothing.
   */
  method GeneratePreSignedUrl(registry: S3Registry, args: PreSignedUrlArgs, signer: SignResult)
    returns (sent: Option<SignRequest>, logged: Option<LogEntry>, url: Option<string>)
    ensures args.bucketName !in registry.clients ==>
      sent.None? && url.None? && logged == Some(Warn(ClientNotFoundMessage(args.bucketName)))
    ensures args.bucketName in registry.clients ==> sent.Some? && sent.value == SignRequest(
      registry.clients[args.bucketName], args.bucketName, args.key,
      if args.expiresIn.Some? then args.expiresIn.value else DefaultExpiresIn)
    ensures url.Some? <==> args.bucketName in registry.clients && signer.Signed?
    ensures url.Some? ==> url.value == signer.url && logged.None?
    ensures args.bucketName in registry.clients && signer.SignFailed? ==> logged == Some(Error(signer.error))
  {
    if args.bucketName !in registry.clients {
      return None, Some(Warn(ClientNotFoundMessage(args.bucketName))), None;
    }
    var expiresIn := match args.expiresIn case Some(e) => e case None => DefaultExpiresIn;
    sent := Some(SignRequest(registry.clients[args.bucketName], args.bucketName, args.key, expiresIn));
    match signer {
      case Signed(u) => logged, url := None, Some(u);
      case SignFailed(e) => logged, url := Some(Error(e)), None;
    }
  }

  /**
   * `deleteFile`: nothing for an unregistered bucket; otherwise send a
   * DeleteObject command and resolve with true once it completes. A
   * provider failure is logged and the call resolves with nothing.
   */
  method DeleteFile(registry: S3Registry, args: DeleteFileArgs, provider: DeleteResult)
    returns (sent: Option<DeleteRequest>, logged: Option<LogEntry>, deleted: Option<bool>)
    ensures args.bucketName !in registry.clients ==>
      sent.None? && deleted.None? && logged == Some(Warn(ClientNotFoundMessage(args.bucketName)))
    ensures args.bucketName in registry.clients ==>
      sent == Some(DeleteRequest(registry.clients[args.bucketName], args.bucketName, args.key))
    ensures deleted == Some(true) <==> args.bucketName in registry.clients && provider.DeleteDone?
    ensures deleted != Some(false)
    ensures args.bucketName in registry.clients && provider.DeleteFailed? ==> logged == Some(Error(provider.error))
    ensures deleted.Some? ==> logged.None?
  {
    if args.bucketName !in registry.clients {
      return None, Some(Warn(ClientNotFoundMessage(args.bucketName))), None;
    }
    sent := Some(DeleteRequest(registry.clients[args.bucketName], args.bucketName, args.key));
    match provider {
      case DeleteDone => logged, deleted := None, Some(true);
      case DeleteFailed(e) => logged, deleted := Some(Error(e)), None;
    }
  }

  // ---------------------------------------------------------------- lemmas

  /** Without a folder the key is the bare uuid. */
  lemma KeyWithoutFolder(folder: Option<string>, uuid: string)
    requires !FolderGiven(folder)
    ensures ObjectKey(folder, uuid) == uuid
  {
  }

  /**
   * With an accepted folder the key is the folder, a '/', then the uuid: it
   * starts with '/', its segments are the folder's followed by the uuid, so
   * its final segment is the uuid.
   */
  lemma KeyUnderFolder(folder: string, uuid: string)
    requires folder != [] && FolderRegexTest(folder)
    requires '/' !in uuid
    ensures var key := ObjectKey(Some(folder), uuid);
      && key[0] == '/'
      && key[..|folder|] == folder && key[|folder|] == '/' && key[|folder| + 1..] == uuid
      && Split(key[1..]) == Split(folder[1..]) + [uuid]
  {
    var key := ObjectKey(Some(folder), uuid);
    assert key == folder + "/" + uuid;
    assert key[1..] == folder[1..] + "/" + uuid;
    SplitConcat(folder[1..], uuid);
    SplitNoSeparator(uuid);
  }

  /**
   * A key built under an accepted folder from a uuid of at least two
   * segment characters is itself an accepted folder path.
   */
  lemma KeyUnderFolderIsAcceptedPath(folder: string, uuid: string)
    requires folder != [] && FolderRegexTest(folder)
    requires IsSegment(uuid) && |uuid| >= 2
    ensures FolderRegexTest(ObjectKey(Some(folder), uuid))
  {
    KeyUnderFolder(folder, uuid);
  }

  /**
   * Duplicate bucket names: the registry keeps the client of the LAST
   * configuration with the name, while the privacy default reads the FIRST.
   */
  lemma DuplicateNamesFirstAndLast(base: map<string, S3Client>, options: seq<BucketConfig>, i: nat, j: nat)
    requires i < j < |options|
    requires FirstWithName(options, options[j].bucketName, i)
    requires forall k :: j < k < |options| ==> options[k].bucketName != options[j].bucketName
    ensures options[j].bucketName in Populate(base, options)
    ensures Populate(base, options)[options[j].bucketName] == ClientFor(options[j])
    ensures EffectivePrivacy(None, options, options[j].bucketName) == options[i].isPrivateAccess
  {
    PopulateLastWriteWins(base, options, j);
  }
}
