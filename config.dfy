/** The command-line configuration and its validation (config.go). */
module Configs {
  import opened Types
  import opened Fs

  datatype Config = Config(
    dryRun: bool,
    outputDir: string,
    vaultAddr: string,
    vaultToken: string,
    vaultRoleID: string,
    vaultSecretID: string)

  /** `Validate`: the first problem found, checked in the order address,
      missing credentials, conflicting credentials, output directory
      given, output directory present. */
  function Validate(c: Config, fs: FileSystem): (r: Option<Error>)
    ensures r.Some? ==> r.value.ConfigError?
    ensures r == None <==>
              c.vaultAddr != "" &&
              (c.vaultToken != "" || c.vaultRoleID != "" || c.vaultSecretID != "") &&
              !(c.vaultToken != "" && (c.vaultRoleID != "" || c.vaultSecretID != "")) &&
              c.outputDir != "" && fs.IsDir(c.outputDir)
    ensures c.vaultAddr == "" <==> r == Some(ConfigError(VaultAddrMissing))
    ensures r == Some(ConfigError(CredentialsMissing)) <==>
              c.vaultAddr != "" && c.vaultToken == "" && c.vaultRoleID == "" && c.vaultSecretID == ""
    ensures r == Some(ConfigError(CredentialsConflict)) <==>
              c.vaultAddr != "" && c.vaultToken != "" && (c.vaultRoleID != "" || c.vaultSecretID != "")
    ensures r == Some(ConfigError(OutputDirMissing)) <==>
              c.vaultAddr != "" &&
              (c.vaultToken != "" || c.vaultRoleID != "" || c.vaultSecretID != "") &&
              !(c.vaultToken != "" && (c.vaultRoleID != "" || c.vaultSecretID != "")) &&
              c.outputDir == ""
    ensures r == Some(ConfigError(OutputDirNotFound(c.outputDir))) <==>
              c.vaultAddr != "" &&
              (c.vaultToken != "" || c.vaultRoleID != "" || c.vaultSecretID != "") &&
              !(c.vaultToken != "" && (c.vaultRoleID != "" || c.vaultSecretID != "")) &&
              c.outputDir != "" && !fs.IsDir(c.outputDir)
    ensures r.Some? && r.value.problem.OutputDirNotFound? ==> r.value.problem.dir == c.outputDir
  {
    if c.vaultAddr == "" then Some(ConfigError(VaultAddrMissing))
    else if c.vaultToken == "" && c.vaultRoleID == "" && c.vaultSecretID == "" then Some(ConfigError(CredentialsMissing))
    else if c.vaultToken != "" && (c.vaultRoleID != "" || c.vaultSecretID != "") then Some(ConfigError(CredentialsConflict))
    else if c.outputDir == "" then Some(ConfigError(OutputDirMissing))
    else if !fs.IsDir(c.outputDir) then Some(ConfigError(OutputDirNotFound(c.outputDir)))
    else None
  }

  /** A valid configuration names exactly one way to log in: a token, or
      AppRole credentials. */
  lemma ValidChoosesOneLogin(c: Config, fs: FileSystem)
    requires Validate(c, fs) == None
    ensures (c.vaultToken != "") != (c.vaultRoleID != "" || c.vaultSecretID != "")
  {
  }

  /** The checks come in order: an address problem hides every other one,
      and a credentials problem hides the output-directory ones. */
  lemma ValidateOrder(c: Config, fs: FileSystem)
    ensures c.vaultAddr == "" ==> Validate(c, fs) == Some(ConfigError(VaultAddrMissing))
    ensures c.vaultAddr != "" && c.vaultToken != "" && c.vaultRoleID != "" && c.outputDir == "" ==>
              Validate(c, fs) == Some(ConfigError(CredentialsConflict))
  {
  }

  /** The AppRole check as written accepts a role id without a secret id
      (and the other way round): only the all-empty case is refused. */
  lemma RoleIDAloneAccepted(fs: FileSystem, dir: string)
    requires dir != "" && fs.IsDir(dir)
    ensures Validate(Config(false, dir, "http://127.0.0.1:8200", "", "role", ""), fs) == None
  {
  }

  /** The empty configuration is refused; an address, a token and an
      existing output directory are accepted. */
  lemma ValidateExamples(fs: FileSystem)
    requires fs.IsDir("../../test")
    ensures Validate(Config(false, "", "", "", "", ""), fs).Some?
    ensures Validate(Config(false, "../../test", "http://127.0.0.1:8200", "token", "", ""), fs) == None
  {
  }
}
