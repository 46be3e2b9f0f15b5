/**
 * The bucket client registry: a process-wide map from bucket name to a
 * storage client, filled by `createS3Clients` from the ordered list of
 * bucket configurations. Client construction is a foreign call; a client
 * is represented by the parameters it was built from, and the fault that
 * construction may raise is an input.
 */
module S3Clients {
  import opened Types

  datatype Credentials = Credentials(accessKeyId: string, secretAccessKey: string)

  /** A storage client handle, as `new S3Client({ region, credentials })` builds it. */
  datatype S3Client = S3Client(region: string, credentials: Credentials)

  /** Where, if anywhere, client construction throws during one `createS3Clients` call. */
  datatype ClientFault = NoFault | ThrowsAt(index: nat, error: string)

  function ClientFor(c: BucketConfig): S3Client {
    S3Client(c.bucketRegion, Credentials(c.accessKey, c.secretKey))
  }

  function BucketNames(cs: seq<BucketConfig>): set<string> {
    set c | c in cs :: c.bucketName
  }

  function CreatingMessage(bucketName: string): string {
    "Creating S3 Client for Bucket: " + bucketName
  }

  /** The registry after writing the configurations in order, each under its bucket name. */
  function Populate(base: map<string, S3Client>, cs: seq<BucketConfig>): map<string, S3Client>
    decreases |cs|
  {
    if cs == [] then base
    else
      var last := cs[|cs| - 1];
      Populate(base, cs[..|cs| - 1])[last.bucketName := ClientFor(last)]
  }

  /** How many configurations the loop gets through: all of them, or those before the one that throws. */
  function Processed(n: nat, fault: ClientFault): nat {
    if fault.ThrowsAt? && fault.index < n then fault.index else n
  }

  /** The position of the last configuration carrying a given bucket name. */
  function LastIndexOf(cs: seq<BucketConfig>, name: string): (i: nat)
    requires name in BucketNames(cs)
    ensures i < |cs| && cs[i].bucketName == name
    ensures forall j :: i < j < |cs| ==> cs[j].bucketName != name
    decreases |cs|
  {
    var n := |cs|;
    if cs[n - 1].bucketName == name then n - 1
    else
      assert name in BucketNames(cs[..n - 1]) by {
        var c :| c in cs && c.bucketName == name;
        var k :| 0 <= k < n && cs[k] == c;
        assert cs[..n - 1][k] == c;
      }
      LastIndexOf(cs[..n - 1], name)
  }

  class S3Registry {
    /** `s3Clients`: bucket name to client. */
    var clients: map<string, S3Client>

    /** The module starts with an empty registry. */
    constructor ()
      ensures clients == map[]
    {
      clients := map[];
    }

    /**
     * `createS3Clients`: for each configuration in order, log, build a
     * client from its region and credentials and store it under its bucket
     * name. A single try/catch surrounds the whole loop, so a construction
     * fault at index k is logged and leaves exactly the configurations
     * before k written; nothing is ever thrown to the caller, nothing removed.
     */
    method CreateS3Clients(options: seq<BucketConfig>, fault: ClientFault) returns (log: seq<LogEntry>)
      modifies this
      ensures clients == Populate(old(clients), options[..Processed(|options|, fault)])
      ensures clients.Keys == old(clients).Keys + BucketNames(options[..Processed(|options|, fault)])
      ensures fault.ThrowsAt? && fault.index < |options| ==>
        log == CreationLog(options[..fault.index + 1]) + [Error(fault.error)]
      ensures !(fault.ThrowsAt? && fault.index < |options|) ==> log == CreationLog(options)
    {
      log := [];
      var i := 0;
      while i < |options|
        invariant i <= |options|
        invariant fault.ThrowsAt? ==> i <= fault.index
        invariant clients == Populate(old(clients), options[..i])
        invariant log == CreationLog(options[..i])
      {
        var config := options[i];
        log := log + [Info(CreatingMessage(config.bucketName))];
        if fault.ThrowsAt? && fault.index == i {
          assert options[..i + 1][..i] == options[..i];
          log := log + [Error(fault.error)];
          break;
        }
        assert options[..i + 1][..i] == options[..i];
        clients := clients[config.bucketName := ClientFor(config)];
        i := i + 1;
      }
      assert i == Processed(|options|, fault);
      assert i == |options| ==> options[..i] == options;
      PopulateKeys(old(clients), options[..i]);
    }
  }

  /** The "Creating S3 Client for Bucket" line logged for each configuration reached. */
  function CreationLog(cs: seq<BucketConfig>): (log: seq<LogEntry>)
    ensures |log| == |cs|
    ensures forall i :: 0 <= i < |cs| ==> log[i] == Info(CreatingMessage(cs[i].bucketName))
    decreases |cs|
  {
    if cs == [] then []
    else CreationLog(cs[..|cs| - 1]) + [Info(CreatingMessage(cs[|cs| - 1].bucketName))]
  }

  // ---------------------------------------------------------------- lemmas

  /** The registry's keys after populating: the old keys plus every configured bucket name. */
  lemma {:induction false} PopulateKeys(base: map<string, S3Client>, cs: seq<BucketConfig>)
    ensures Populate(base, cs).Keys == base.Keys + BucketNames(cs)
    decreases |cs|
  {
    if cs != [] {
      var n := |cs|;
      PopulateKeys(base, cs[..n - 1]);
      assert cs == cs[..n - 1] + [cs[n - 1]];
      assert BucketNames(cs) == BucketNames(cs[..n - 1]) + {cs[n - 1].bucketName};
    }
  }

  /** Every configured bucket name is registered after a run without faults. */
  lemma EveryConfiguredBucketRegistered(base: map<string, S3Client>, cs: seq<BucketConfig>, i: nat)
    requires i < |cs|
    ensures cs[i].bucketName in Populate(base, cs)
  {
    PopulateKeys(base, cs);
    assert cs[i] in cs;
  }

  /**
   * Last write wins: the client stored under a name is the one built from
   * the last configuration with that name, from that configuration's own
   * region and credentials.
   */
  lemma {:induction false} PopulateLastWriteWins(base: map<string, S3Client>, cs: seq<BucketConfig>, i: nat)
    requires i < |cs|
    requires forall j :: i < j < |cs| ==> cs[j].bucketName != cs[i].bucketName
    ensures cs[i].bucketName in Populate(base, cs)
    ensures Populate(base, cs)[cs[i].bucketName] == ClientFor(cs[i])
    ensures Populate(base, cs)[cs[i].bucketName].region == cs[i].bucketRegion
    ensures Populate(base, cs)[cs[i].bucketName].credentials == Credentials(cs[i].accessKey, cs[i].secretKey)
    decreases |cs|
  {
    var n := |cs|;
    if i < n - 1 {
      var prefix := cs[..n - 1];
      assert forall j :: i < j < |prefix| ==> prefix[j].bucketName != prefix[i].bucketName by {
        forall j | i < j < |prefix| ensures prefix[j].bucketName != prefix[i].bucketName {
          assert prefix[j] == cs[j];
        }
      }
      PopulateLastWriteWins(base, prefix, i);
      assert prefix[i] == cs[i];
    }
  }

  /** The same, stated for a name: it maps to the client of its last configuration. */
  lemma RegisteredClientIsLastConfigs(base: map<string, S3Client>, cs: seq<BucketConfig>, name: string)
    requires name in BucketNames(cs)
    ensures name in Populate(base, cs)
    ensures Populate(base, cs)[name] == ClientFor(cs[LastIndexOf(cs, name)])
  {
    PopulateLastWriteWins(base, cs, LastIndexOf(cs, name));
  }

  /** Names no configuration mentions keep their old entry, or stay absent. */
  lemma {:induction false} PopulateLeavesOthers(base: map<string, S3Client>, cs: seq<BucketConfig>, name: string)
    requires name !in BucketNames(cs)
    ensures name in Populate(base, cs) <==> name in base
    ensures name in base ==> Populate(base, cs)[name] == base[name]
    decreases |cs|
  {
    if cs != [] {
      var n := |cs|;
      assert cs[n - 1] in cs;
      assert BucketNames(cs[..n - 1]) <= BucketNames(cs) by {
        assert forall c :: c in cs[..n - 1] ==> c in cs;
      }
      PopulateLeavesOthers(base, cs[..n - 1], name);
    }
  }

  /** Populating never removes a key and never changes an entry no configuration names. */
  lemma PopulateNeverRemoves(base: map<string, S3Client>, cs: seq<BucketConfig>)
    ensures base.Keys <= Populate(base, cs).Keys
    ensures forall name :: name in base && name !in BucketNames(cs) ==> Populate(base, cs)[name] == base[name]
  {
    PopulateKeys(base, cs);
    forall name | name in base && name !in BucketNames(cs)
      ensures Populate(base, cs)[name] == base[name]
    {
      PopulateLeavesOthers(base, cs, name);
    }
  }

  /**
   * A fault at index k: the names of configurations 0..k-1 are registered,
   * and a name that only later configurations carry is registered only if
   * it was before the call.
   */
  lemma FaultKeepsPrefixOnly(base: map<string, S3Client>, cs: seq<BucketConfig>, k: nat, name: string)
    requires k < |cs|
    ensures forall i :: 0 <= i < k ==> cs[i].bucketName in Populate(base, cs[..k])
    ensures name !in BucketNames(cs[..k]) ==> (name in Populate(base, cs[..k]) <==> name in base)
  {
    forall i | 0 <= i < k ensures cs[i].bucketName in Populate(base, cs[..k]) {
      EveryConfiguredBucketRegistered(base, cs[..k], i);
    }
    if name !in BucketNames(cs[..k]) {
      PopulateLeavesOthers(base, cs[..k], name);
    }
  }
}
