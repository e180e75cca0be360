/** `archive/main.py`: the earlier two-phase pipeline. Per table, one function
    downloads the export and uploads it, a second loads it into the warehouse,
    and the load runs only after an upload that returned `True`. */
module ArchivePipeline {
  import opened Wrappers
  import opened Text
  import opened Seqs
  import opened Pipeline

  /** The world one table meets:
      - `download`: what `download_table_csv` returns;
      - `fileExists`, `fileSize`: what `os.path` says of the downloaded file;
      - `azureKeys`: `config['Azure']` has `connection_string` and `container_name`;
      - `upload`: what `upload_to_azure_blob` does;
      - `sqlFileExists`: the table's SQL file exists;
      - `snowflakeSection`: `config.get('Snowflake')` is truthy;
      - `snowflakeKeys`: that section has every key the load reads;
      - `loadSucceeds`: what `load_data_to_snowflake` returns (it catches its own errors). */
  datatype ArchiveEnv = ArchiveEnv(
    download: Option<string>,
    fileExists: bool,
    fileSize: nat,
    azureKeys: bool,
    upload: Call<bool>,
    sqlFileExists: bool,
    snowflakeSection: bool,
    snowflakeKeys: bool,
    loadSucceeds: bool)

  /** A phase's result (a value or an exception) and the outside calls it made. */
  datatype Phase = Phase(result: Call<bool>, actions: seq<Action>)

  /** `api_download_and_upload`: `False` for a missing path, a missing file or
      an empty file, before any upload; a missing Azure key raises. */
  function DownloadAndUpload(table: string, env: ArchiveEnv): Phase {
    var downloaded := [Download(table)];
    if !IsPath(env.download) || !env.fileExists || env.fileSize == 0 then Phase(Returns(false), downloaded)
    else if !env.azureKeys then Phase(Raises, downloaded)
    else Phase(env.upload, downloaded + [Upload(BlobName(table), env.download.value)])
  }

  method ApiDownloadAndUpload(table: string, env: ArchiveEnv) returns (result: Call<bool>, actions: seq<Action>)
    ensures Phase(result, actions) == DownloadAndUpload(table, env)
  {
    actions := [Download(table)];
    var csvFilePath := env.download;
    if !IsPath(csvFilePath) {
      return Returns(false), actions;
    }
    if !env.fileExists {
      return Returns(false), actions;
    }
    if env.fileSize == 0 {
      return Returns(false), actions;
    }
    if !env.azureKeys {
      return Raises, actions;
    }
    actions := actions + [Upload(BlobName(table), csvFilePath.value)];
    match env.upload {
      case Raises =>
        return Raises, actions;
      case Returns(success) =>
        if !success {
          return Returns(false), actions;
        }
    }
    return Returns(true), actions;
  }

  /** `snowflake_load`: `False` without the SQL file or the Snowflake section;
      a missing key inside its `try` is `False` too. */
  function LoadPhase(table: string, env: ArchiveEnv): Phase {
    if !env.sqlFileExists || !env.snowflakeSection || !env.azureKeys || !env.snowflakeKeys then Phase(Returns(false), [])
    else Phase(Returns(env.loadSucceeds), [Load(Lower(table), BlobName(table), SqlFile(table))])
  }

  method SnowflakeLoad(table: string, env: ArchiveEnv) returns (success: bool, actions: seq<Action>)
    ensures Phase(Returns(success), actions) == LoadPhase(table, env)
  {
    actions := [];
    if !env.sqlFileExists {
      return false, actions;
    }
    if !env.snowflakeSection {
      return false, actions;
    }
    if !env.azureKeys || !env.snowflakeKeys {
      return false, actions;
    }
    actions := [Load(Lower(table), BlobName(table), SqlFile(table))];
    return env.loadSucceeds, actions;
  }

  /** A failed download stops the first phase before any upload. */
  lemma DownloadFailureBeforeUpload(table: string, env: ArchiveEnv)
    requires !IsPath(env.download) || !env.fileExists || env.fileSize == 0
    ensures DownloadAndUpload(table, env) == Phase(Returns(false), [Download(table)])
  {
  }

  /** The load phase fails without the SQL file or the Snowflake section, and
      never calls the loader then. */
  lemma LoadGuards(table: string, env: ArchiveEnv)
    ensures !env.sqlFileExists || !env.snowflakeSection ==> LoadPhase(table, env) == Phase(Returns(false), [])
    ensures LoadPhase(table, env).result == Returns(true) <==>
      env.sqlFileExists && env.snowflakeSection && env.azureKeys && env.snowflakeKeys && env.loadSucceeds
  {
  }

  /** The upload phase returned `True`. */
  predicate UploadOk(table: string, env: string -> ArchiveEnv) {
    DownloadAndUpload(table, env(table)).result == Returns(true)
  }

  /** A table succeeds when its upload and then its load return `True`. */
  predicate TableOk(table: string, env: string -> ArchiveEnv) {
    UploadOk(table, env) && LoadPhase(table, env(table)).result == Returns(true)
  }

  /** `TABLES`. */
  const ArchiveTables: seq<string> := ["Prospects", "Residents", "Activities", "DepositTransactions"]

  /** `main()`: the exit code, the two lists and the tables whose load ran. */
  method ArchiveMain(config: ConfigCheck, env: string -> ArchiveEnv)
    returns (exitCode: int, successful: seq<string>, failed: seq<string>, loaded: seq<string>)
    ensures !ConfigValid(config) ==> exitCode == 1 && successful == [] && failed == [] && loaded == []
    ensures ConfigValid(config) ==>
      && successful == Filter(ArchiveTables, t => TableOk(t, env))
      && failed == Filter(ArchiveTables, t => !TableOk(t, env))
      && loaded == Filter(ArchiveTables, t => UploadOk(t, env))
      && exitCode == (if failed == [] then 0 else 1)
  {
    if !ConfigValid(config) {
      return 1, [], [], [];
    }
    successful, failed, loaded := ArchiveTablesLoop(ArchiveTables, env);
    exitCode := if failed == [] then 0 else 1;
  }

  /** The tables of `tables` that succeed, in order. */
  function Successful(tables: seq<string>, env: string -> ArchiveEnv): seq<string> {
    Filter(tables, t => TableOk(t, env))
  }

  /** The tables of `tables` that fail, in order. */
  function Failed(tables: seq<string>, env: string -> ArchiveEnv): seq<string> {
    Filter(tables, t => !TableOk(t, env))
  }

  /** The tables of `tables` whose load runs, in order. */
  function Loaded(tables: seq<string>, env: string -> ArchiveEnv): seq<string> {
    Filter(tables, t => UploadOk(t, env))
  }

  /** The loop of `main` over `tables`: each table's two phases, inside the
      `try` that turns an exception into a failure. */
  method ArchiveTablesLoop(tables: seq<string>, env: string -> ArchiveEnv)
    returns (successful: seq<string>, failed: seq<string>, loaded: seq<string>)
    ensures successful == Successful(tables, env)
    ensures failed == Failed(tables, env)
    ensures loaded == Loaded(tables, env)
  {
    successful, failed, loaded := [], [], [];
    for i := 0 to |tables|
      invariant successful == Successful(tables[..i], env)
      invariant failed == Failed(tables[..i], env)
      invariant loaded == Loaded(tables[..i], env)
    {
      var table := tables[i];
      ArchiveStep(tables[..i], table, env);
      assert tables[..i + 1] == tables[..i] + [table];
      var uploadSuccess, _ := ApiDownloadAndUpload(table, env(table));
      if uploadSuccess == Returns(true) {
        loaded := loaded + [table];
        var loadSuccess, _ := SnowflakeLoad(table, env(table));
        if loadSuccess {
          successful := successful + [table];
        } else {
          failed := failed + [table];
        }
      } else {
        // `False`, or an exception caught by the `try` around the table.
        failed := failed + [table];
      }
    }
    assert tables[..|tables|] == tables;
  }

  /** The three lists after one more table. */
  lemma ArchiveStep(done: seq<string>, table: string, env: string -> ArchiveEnv)
    ensures Successful(done + [table], env) == Successful(done, env) + (if TableOk(table, env) then [table] else [])
    ensures Failed(done + [table], env) == Failed(done, env) + (if TableOk(table, env) then [] else [table])
    ensures Loaded(done + [table], env) == Loaded(done, env) + (if UploadOk(table, env) then [table] else [])
  {
    FilterSnoc(done, table, t => TableOk(t, env));
    FilterSnoc(done, table, t => !TableOk(t, env));
    FilterSnoc(done, table, t => UploadOk(t, env));
  }

  /** Every table lands in exactly one list, exceptions included; a table
      succeeds only when its load ran; the exit code is 0 exactly when every
      table succeeded. */
  lemma ArchivePartition(tables: seq<string>, env: string -> ArchiveEnv)
    ensures var ok := Filter(tables, t => TableOk(t, env));
      var bad := Filter(tables, t => !TableOk(t, env));
      && multiset(ok) + multiset(bad) == multiset(tables)
      && (forall i :: 0 <= i < |ok| ==> ok[i] in Filter(tables, t => UploadOk(t, env)))
      && (bad == [] <==> forall i :: 0 <= i < |tables| ==> TableOk(tables[i], env))
  {
    var p := t => TableOk(t, env);
    var q := t => !TableOk(t, env);
    var u := t => UploadOk(t, env);
    FilterPartition(tables, p, q);
    FilterMembers(tables, p);
    FilterMembers(tables, q);
    FilterMembers(tables, u);
    var ok := Filter(tables, p);
    forall i | 0 <= i < |ok| ensures ok[i] in Filter(tables, u) {
      var j :| 0 <= j < |tables| && tables[j] == ok[i];
      assert u(tables[j]);
    }
    var bad := Filter(tables, q);
    if bad != [] {
      assert bad[0] in tables && !TableOk(bad[0], env);
    }
  }
}
