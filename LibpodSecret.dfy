/**
 * The secret record of libpod: its stored configuration and the read-only views the
 * commands use. The runtime back-pointer and the `valid` flag of the Go struct are not
 * read by any of these views and are left out.
 */
module LibpodSecret {

  import Text

  /** What is stored for a secret. */
  datatype SecretConfig = SecretConfig(
    name: string,
    labels: map<string, string>,
    driver: string,
    scope: string,
    isCtrSpecific: bool)

  /** The directory every mount point lives under. */
  const MountRoot: string := "/secrets/"

  datatype Secret = Secret(config: SecretConfig)
  {
    /** The secret's name. */
    function Name(): string
    {
      config.name
    }

    /**
     * A copy of the secret's labels, built entry by entry. Maps are values here, so the
     * caller can change its copy without touching `config`.
     */
    method Labels() returns (labels: map<string, string>)
      ensures labels.Keys == config.labels.Keys
      ensures forall key :: key in labels ==> labels[key] == config.labels[key]
    {
      labels := map[];
      var todo := config.labels.Keys;
      while todo != {}
        invariant todo <= config.labels.Keys
        invariant labels.Keys == config.labels.Keys - todo
        invariant forall key :: key in labels ==> labels[key] == config.labels[key]
        decreases todo
      {
        var key :| key in todo;
        labels := labels[key := config.labels[key]];
        todo := todo - {key};
      }
    }

    /** Where the secret is mounted on the host: under the root, then the driver, then the name. */
    function MountPoint(): (path: string)
      ensures |path| == |MountRoot| + |config.driver| + 1 + |config.name|
      ensures path[..|MountRoot|] == MountRoot
      ensures path[|MountRoot|..|MountRoot| + |config.driver|] == config.driver
      ensures path[|MountRoot| + |config.driver|] == '/'
      ensures path[|path| - |config.name|..] == config.name
    {
      MountRoot + config.driver + "/" + config.name
    }

    /** The secret's driver. */
    function Driver(): string
    {
      config.driver
    }

    /** The secret's scope. */
    function Scope(): string
    {
      config.scope
    }

    /** Whether the secret was created for one container and goes away with it. */
    function IsCtrSpecific(): bool
    {
      config.isCtrSpecific
    }
  }

  /** Each accessor reads its own field of the stored configuration. */
  lemma AccessorsReadConfig(c: SecretConfig)
    ensures Secret(c).Name() == c.name && Secret(c).Driver() == c.driver
    ensures Secret(c).Scope() == c.scope && Secret(c).IsCtrSpecific() == c.isCtrSpecific
    ensures Secret(c).MountPoint() == MountRoot + c.driver + "/" + c.name
  {
  }

  /**
   * The mount point identifies the secret's driver and name, as long as the driver name
   * holds no slash: two secrets share a mount point only if they share both.
   */
  lemma MountPointIdentifies(a: Secret, b: Secret)
    requires '/' !in a.Driver() && '/' !in b.Driver()
    requires a.MountPoint() == b.MountPoint()
    ensures a.Driver() == b.Driver() && a.Name() == b.Name()
  {
    var tail := a.MountPoint()[|MountRoot|..];
    var da, db := a.config.driver, b.config.driver;
    assert tail == da + "/" + a.config.name;
    assert tail == db + "/" + b.config.name;
    assert tail[..|da|] == da && tail[..|db|] == db;
    Text.IndexOfAt(tail, '/', |da|);
    Text.IndexOfAt(tail, '/', |db|);
    assert tail[|da| + 1..] == a.config.name;
    assert tail[|db| + 1..] == b.config.name;
  }
}
