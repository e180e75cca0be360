/** `main.py`: runs the three-step pipeline (API download, blob upload,
    warehouse load) for every table of `TABLES` and sorts the tables into the
    successful and the failed ones. The outside world a table meets (what the
    download returns, what the file system says, what the uploads and the load
    return or raise, which configuration keys exist) is an input. */
module Pipeline {
  import opened Wrappers
  import opened Text
  import opened Seqs
  import SnakeCase

  /** The steps of `process_table`, in their fixed order. */
  datatype StepName = ApiDownload | BlobUpload | SnowflakeLoad

  function Rank(s: StepName): nat {
    match s
    case ApiDownload => 0
    case BlobUpload => 1
    case SnowflakeLoad => 2
  }

  /** The flags `api_download`, `blob_upload` and `snowflake_load`. */
  datatype Flags = Flags(apiDownload: bool, blobUpload: bool, snowflakeLoad: bool)

  /** `process_table`'s defaults: every step on. */
  const AllSteps: Flags := Flags(true, true, true)

  predicate Enabled(f: Flags, s: StepName) {
    match s
    case ApiDownload => f.apiDownload
    case BlobUpload => f.blobUpload
    case SnowflakeLoad => f.snowflakeLoad
  }

  /** `steps_to_run`. */
  function StepsToRun(f: Flags): seq<StepName> {
    (if f.apiDownload then [ApiDownload] else [])
    + (if f.blobUpload then [BlobUpload] else [])
    + (if f.snowflakeLoad then [SnowflakeLoad] else [])
  }

  /** The step list holds exactly the enabled steps, each once, in the fixed order. */
  lemma StepsToRunExact(f: Flags)
    ensures forall s :: s in StepsToRun(f) <==> Enabled(f, s)
    ensures forall i, j :: 0 <= i < j < |StepsToRun(f)| ==> Rank(StepsToRun(f)[i]) < Rank(StepsToRun(f)[j])
  {
  }

  /** What an outside call does: return a value or raise. */
  datatype Call<T> = Returns(value: T) | Raises

  /** The world one table meets:
      - `download`: what `download_table_csv` returns (it catches its own errors);
      - `fileExists`, `fileSize`: what `os.path` says of the downloaded file;
      - `azureKeys`: `config['Azure']` has `connection_string` and `container_name`;
      - `upload`: what `upload_to_azure_blob` does;
      - `sqlFileExists`: the table's SQL file exists;
      - `snowflakeSection`: `config.get('Snowflake')` is truthy;
      - `snowflakeKeys`: that section has every key the load reads;
      - `load`: what `load_data_to_snowflake` does. */
  datatype TableEnv = TableEnv(
    download: Option<string>,
    fileExists: bool,
    fileSize: nat,
    azureKeys: bool,
    upload: Call<bool>,
    sqlFileExists: bool,
    snowflakeSection: bool,
    snowflakeKeys: bool,
    load: Call<bool>)

  /** How `process_table` ends: `True`, `False`, falling off its end (`None`),
      or an exception it lets through. */
  datatype Outcome = ReturnedTrue | ReturnedFalse | ReturnedNone | Raised

  /** An outside call `process_table` makes. */
  datatype Action =
    | Download(table: string)
    | Upload(blobName: string, localFile: string)
    | Load(tableName: string, blobName: string, sqlFile: string)

  /** A run of `process_table`: how it ends and the calls it made, in order. */
  datatype Run = Run(result: Outcome, actions: seq<Action>)

  /** `if not csv_file_path`: `None` and the empty path are both missing. */
  predicate IsPath(p: Option<string>) {
    p.Some? && p.value != ""
  }

  /** The download step passes: a path, an existing file and a non-empty one. */
  predicate DownloadOk(env: TableEnv) {
    IsPath(env.download) && env.fileExists && env.fileSize > 0
  }

  /** `f"{table_name.lower()}.csv"`. */
  function BlobName(table: string): string {
    Lower(table) + ".csv"
  }

  /** `f"{camel_to_snake_case(table_name)}.sql"`. */
  function SqlFile(table: string): string {
    SnakeCase.ToSnakeCase(table) + ".sql"
  }

  /** The decision flow of `process_table`. */
  function ProcessRun(table: string, f: Flags, env: TableEnv): Run {
    var downloaded := if f.apiDownload then [Download(table)] else [];
    if f.apiDownload && !DownloadOk(env) then Run(ReturnedFalse, downloaded)
    else
      var path := if f.apiDownload then env.download else None;
      if f.blobUpload && !IsPath(path) then Run(ReturnedFalse, downloaded)
      else if f.blobUpload && !env.azureKeys then Run(Raised, downloaded)
      else
        var uploaded := if f.blobUpload then downloaded + [Upload(BlobName(table), path.value)] else downloaded;
        if f.blobUpload && env.upload.Raises? then Run(Raised, uploaded)
        else if f.blobUpload && !env.upload.value then Run(ReturnedFalse, uploaded)
        else if !f.snowflakeLoad then Run(ReturnedNone, uploaded)
        else if !env.sqlFileExists || !env.snowflakeSection then Run(ReturnedFalse, uploaded)
        else if (!f.blobUpload && !env.azureKeys) || !env.snowflakeKeys then Run(ReturnedFalse, uploaded)
        else
          var loaded := uploaded + [Load(Lower(table), BlobName(table), SqlFile(table))];
          Run(if env.load == Returns(true) then ReturnedTrue else ReturnedFalse, loaded)
  }

  /** `process_table(table_name, config, api_download, blob_upload,
      snowflake_load)`; also returns `steps_to_run`. */
  method ProcessTable(table: string, f: Flags, env: TableEnv) returns (result: Outcome, actions: seq<Action>, stepsToRun: seq<StepName>)
    ensures Run(result, actions) == ProcessRun(table, f, env)
    ensures stepsToRun == StepsToRun(f)
  {
    stepsToRun := [];
    if f.apiDownload {
      stepsToRun := stepsToRun + [ApiDownload];
    }
    if f.blobUpload {
      stepsToRun := stepsToRun + [BlobUpload];
    }
    if f.snowflakeLoad {
      stepsToRun := stepsToRun + [SnowflakeLoad];
    }
    actions := [];
    var csvFilePath: Option<string> := None;
    var azureConfigSet := false;
    if f.apiDownload || f.blobUpload {
      if f.apiDownload {
        actions := actions + [Download(table)];
        csvFilePath := env.download;
        if !IsPath(csvFilePath) {
          return ReturnedFalse, actions, stepsToRun;
        }
        if !env.fileExists {
          return ReturnedFalse, actions, stepsToRun;
        }
        if env.fileSize == 0 {
          return ReturnedFalse, actions, stepsToRun;
        }
      }
      if f.blobUpload {
        if !IsPath(csvFilePath) {
          // With or without `api_download`: nothing to upload.
          return ReturnedFalse, actions, stepsToRun;
        }
        if !env.azureKeys {
          // `KeyError` outside any `try`.
          return Raised, actions, stepsToRun;
        }
        azureConfigSet := true;
        actions := actions + [Upload(BlobName(table), csvFilePath.value)];
        match env.upload {
          case Raises =>
            return Raised, actions, stepsToRun;
          case Returns(success) =>
            if !success {
              return ReturnedFalse, actions, stepsToRun;
            }
        }
      }
    }
    if f.snowflakeLoad {
      if !env.sqlFileExists {
        return ReturnedFalse, actions, stepsToRun;
      }
      if !env.snowflakeSection {
        return ReturnedFalse, actions, stepsToRun;
      }
      // Inside `try`: a missing key is a `KeyError`, caught like a raising load.
      if !azureConfigSet && !env.azureKeys {
        return ReturnedFalse, actions, stepsToRun;
      }
      if !env.snowflakeKeys {
        return ReturnedFalse, actions, stepsToRun;
      }
      actions := actions + [Load(Lower(table), BlobName(table), SqlFile(table))];
      if env.load != Returns(true) {
        return ReturnedFalse, actions, stepsToRun;
      }
      return ReturnedTrue, actions, stepsToRun;
    }
    return ReturnedNone, actions, stepsToRun;
  }

  /** A failed download (no path, no file, an empty file) fails the table
      before any upload or load. */
  lemma DownloadFailureStops(table: string, f: Flags, env: TableEnv)
    requires f.apiDownload && (!IsPath(env.download) || !env.fileExists || env.fileSize == 0)
    ensures ProcessRun(table, f, env) == Run(ReturnedFalse, [Download(table)])
  {
  }

  /** An upload without a download has no file to upload: the table fails
      and no outside call is made. */
  lemma UploadWithoutDownloadFails(table: string, f: Flags, env: TableEnv)
    requires f.blobUpload && !f.apiDownload
    ensures ProcessRun(table, f, env) == Run(ReturnedFalse, [])
  {
  }

  /** Every upload and load names the blob `lower(table) + ".csv"`, and an
      upload only ever follows a download. */
  lemma BlobNameIsLowerCsv(table: string, f: Flags, env: TableEnv)
    ensures var actions := ProcessRun(table, f, env).actions;
      forall i :: 0 <= i < |actions| && !actions[i].Download? ==> actions[i].blobName == Lower(table) + ".csv"
    ensures var actions := ProcessRun(table, f, env).actions;
      forall i :: 0 <= i < |actions| && actions[i].Upload? ==> i == 1 && actions[0] == Download(table)
  {
  }

  /** `True` comes only from a load that returned `True`, with the load step
      on and every earlier enabled step passed. */
  lemma ReturnsTrueIff(table: string, f: Flags, env: TableEnv)
    ensures ProcessRun(table, f, env).result == ReturnedTrue <==>
      && f.snowflakeLoad
      && (f.apiDownload ==> DownloadOk(env))
      && (f.blobUpload ==> f.apiDownload && env.azureKeys && env.upload == Returns(true))
      && env.sqlFileExists && env.snowflakeSection
      && (f.blobUpload || env.azureKeys) && env.snowflakeKeys
      && env.load == Returns(true)
  {
  }

  /** With the load step off, a table whose steps all pass falls off the end
      of `process_table` and counts as failed. */
  lemma LoadDisabledReturnsNone(table: string, f: Flags, env: TableEnv)
    requires !f.snowflakeLoad
    requires f.apiDownload ==> DownloadOk(env)
    requires f.blobUpload ==> f.apiDownload && env.azureKeys && env.upload == Returns(true)
    ensures ProcessRun(table, f, env).result == ReturnedNone
  {
  }

  /** Only `True` counts as a success in `main`. */
  predicate Succeeds(table: string, env: string -> TableEnv) {
    ProcessRun(table, AllSteps, env(table)).result == ReturnedTrue
  }

  /** `TABLES`. */
  const Tables: seq<string> := ["Prospects", "Residents", "Activities", "DepositTransactions"]

  /** What `main` sees of the configuration: `load_config` returned, and the
      three values it checks before any table are truthy. */
  datatype ConfigCheck = ConfigCheck(loads: bool, apiKey: bool, azureConnection: bool, snowflake: bool)

  predicate ConfigValid(c: ConfigCheck) {
    c.loads && c.apiKey && c.azureConnection && c.snowflake
  }

  /** `main()`: the exit code and the two lists. */
  method PipelineMain(config: ConfigCheck, env: string -> TableEnv)
    returns (exitCode: int, successful: seq<string>, failed: seq<string>)
    ensures !ConfigValid(config) ==> exitCode == 1 && successful == [] && failed == []
    ensures ConfigValid(config) ==>
      && successful == Filter(Tables, t => Succeeds(t, env))
      && failed == Filter(Tables, t => !Succeeds(t, env))
      && exitCode == (if failed == [] then 0 else 1)
  {
    successful, failed := [], [];
    if !ConfigValid(config) {
      return 1, successful, failed;
    }
    for i := 0 to |Tables|
      invariant successful == SucceededTables(Tables[..i], env)
      invariant failed == FailedTables(Tables[..i], env)
    {
      var table := Tables[i];
      assert Tables[..i + 1] == Tables[..i] + [table];
      MainStep(Tables[..i], table, env);
      var success, _, _ := ProcessTable(table, AllSteps, env(table));
      if success == ReturnedTrue {
        successful := successful + [table];
      } else {
        failed := failed + [table];
      }
    }
    assert Tables[..|Tables|] == Tables;
    exitCode := if failed == [] then 0 else 1;
  }

  /** The tables of `tables` that succeed, in order. */
  function SucceededTables(tables: seq<string>, env: string -> TableEnv): seq<string> {
    Filter(tables, t => Succeeds(t, env))
  }

  /** The tables of `tables` that fail, in order. */
  function FailedTables(tables: seq<string>, env: string -> TableEnv): seq<string> {
    Filter(tables, t => !Succeeds(t, env))
  }

  /** The two lists after one more table. */
  lemma MainStep(done: seq<string>, table: string, env: string -> TableEnv)
    ensures SucceededTables(done + [table], env) == SucceededTables(done, env) + (if Succeeds(table, env) then [table] else [])
    ensures FailedTables(done + [table], env) == FailedTables(done, env) + (if Succeeds(table, env) then [] else [table])
  {
    FilterSnoc(done, table, t => Succeeds(t, env));
    FilterSnoc(done, table, t => !Succeeds(t, env));
  }

  /** Every table lands in exactly one of the two lists, each list in the
      order of the table list, and the exit code is 0 exactly when every
      table succeeded. */
  lemma MainPartition(tables: seq<string>, env: string -> TableEnv)
    ensures var ok := Filter(tables, t => Succeeds(t, env));
      var bad := Filter(tables, t => !Succeeds(t, env));
      && multiset(ok) + multiset(bad) == multiset(tables)
      && IsSubsequence(ok, tables) && IsSubsequence(bad, tables)
      && (bad == [] <==> forall i :: 0 <= i < |tables| ==> Succeeds(tables[i], env))
  {
    var p := t => Succeeds(t, env);
    var q := t => !Succeeds(t, env);
    FilterPartition(tables, p, q);
    FilterIsSubsequence(tables, p);
    FilterIsSubsequence(tables, q);
    FilterMembers(tables, q);
    var bad := Filter(tables, q);
    if bad != [] {
      assert bad[0] in tables && !Succeeds(bad[0], env);
    }
  }
}
