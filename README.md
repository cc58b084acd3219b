# vault-handler, modelled in Dafny

vault-handler moves secrets between HashiCorp Vault, the local file system
and Kubernetes. A YAML manifest lists groups. Each group has a Vault path, a
Kubernetes secret type and a list of entries. An entry is a name, an
extension, a flag saying the payload is gzip+base64 in Vault, a flag saying
the entry name is a last path segment, and an optional environment variable
to upload from. The package `pkg/vault-handler` has these parts:

- **upload** reads each entry from a file or an environment variable, zips it
  on request, and collects the values per Vault path. It then writes one
  request per path. kv-v2 paths (`secret/data…`) get the `{"data": …}`
  envelope.
- **download** reads each entry back from Vault, unzips it on request, keeps
  it as a `File`, and writes the files out as `<group>.<name>.<extension>`.
- **copy** groups downloaded files by group. It compares each group with the
  Kubernetes secret of that name, and writes only the groups that differ
  (delete, then create).
- **dot-env** turns downloaded files into `GROUP_NAME_EXTENSION=value`
  variables. It merges in an existing `.env` read with shell semantics and
  writes the result back, shell-quoted.
- **handler** is the older download loop. It authenticates, reads every entry
  and persists it.
- **config** validates the command-line configuration.

The collaborators become classes holding abstract state:

- `Fs.FileSystem`: its files, its directories, and the paths that fail.
- `VaultClient.Vault`: its token, its store, the paths that are denied, and
  the log of requests sent.
- `Kube.Kubernetes`: its secrets, and the API calls that fail.

Go's objects become classes whose methods change their fields. Go map
iteration becomes a loop that picks any remaining key. Its visiting order is
returned as a ghost `order`, and the contracts hold for every such order.
Each loop method is proved equal to a recursive specification function. The
lemmas are stated about those functions.

Shared pieces:

- `Base64` is the standard alphabet with padding, as in section 4 of
  RFC 4648. Like Go's `base64.NewDecoder`, the decoder skips CR and LF.
- `Gzip` is a small stream format with a header and a trailer. The model does
  not need deflate (see "Left out").
- `Shell` is the subset of POSIX shell assignment syntax that a dot-env file
  written by this tool uses.

## Model

| member | source | states |
|---|---|---|
| Configs.Validate | pkg/vault-handler/config.go:19-37 | nil exactly when the address is set, one kind of credentials is given, and the output directory is named and is a directory; each error names the first check that fails, in source order |
| Configs.ValidChoosesOneLogin | pkg/vault-handler/config.go:23-28 | a valid configuration has a token or AppRole credentials, never both and never neither |
| Configs.ValidateOrder | pkg/vault-handler/config.go:19-28 | a missing address hides every other problem; conflicting credentials hide output-directory problems |
| Configs.RoleIDAloneAccepted | pkg/vault-handler/config.go:23-28 | a role id without a secret id is accepted (only all-empty credentials are refused) |
| Configs.ValidateExamples | pkg/vault-handler/config_test.go:9-20 | the empty configuration is refused; address, token and an existing directory are accepted |
| Paths.Join | pkg/vault-handler/file.go:106-108 | the joined path starts with the directory, ends with the name and has one separator between two non-empty parts |
| Manifests.ComposePath | pkg/vault-handler/handler.go:66-69 | the group path, or the group path with the entry name as one more segment when the entry asks for it |
| Files.FileNameInjective | pkg/vault-handler/file.go:101-103 | when no part contains a dot, `group.name.extension` gives back group, name and extension |
| Files.File.FileNameParts | pkg/vault-handler/file.go:101-103 | the file name is the group, a dot, the entry name, a dot and the extension; with no dot in the group its first dot follows the group |
| Files.File.FilePathParts | pkg/vault-handler/file.go:106-108 | the path is the base directory, a slash and the file name, so it ends with the extension |
| Files.FilePathExample | pkg/vault-handler/handler_test.go:72 | group `group`, entry `zipped.txt` under `/var/tmp` is `/var/tmp/group.zipped.txt` |
| Files.File.constructor | pkg/vault-handler/file.go:111-123 | the new file holds the group, secret type, properties and payload it was given |
| Files.File.Zip | pkg/vault-handler/file.go:25-50 | the payload becomes the gzip+base64 encoding of the old payload; nothing else changes |
| Files.File.Unzip | pkg/vault-handler/file.go:53-70 | a well-formed payload is replaced by its decoding; a malformed one gives a codec error; nothing else changes |
| Files.File.Read | pkg/vault-handler/file.go:73-88 | a missing file gives not-found and keeps the payload; a failing read gives an I/O error and an empty payload; otherwise the payload is the file's contents |
| Files.File.Write | pkg/vault-handler/file.go:91-98 | the payload is written at `FilePath(baseDir)`, with the file system's write outcome |
| Codec.Zip | pkg/vault-handler/file.go:25-50 | the output is a whole number of base64 quanta, all alphabet or padding characters |
| Codec.Unzip | pkg/vault-handler/file.go:53-70 | succeeds exactly when the input is base64 whose decoding is a gzip stream; every failure is a codec error |
| Codec.UnzipZip | pkg/vault-handler/file.go:25-70 | unzipping a zipped payload gives the payload back |
| Codec.UnzipRefusesPartialQuanta | pkg/vault-handler/file.go:60-63 | input whose length without newlines is not a multiple of four is refused |
| Codec.UnzipRefusesNonGzip | pkg/vault-handler/file.go:60-63 | base64 whose decoding lacks the gzip magic is refused |
| Base64.EncodeLength | pkg/vault-handler/file.go:31 | the encoding has four characters per started three-byte group |
| Base64.EncodeAlphabet | pkg/vault-handler/file.go:31 | every encoded character is in the alphabet or is padding, and padding only occurs in the last two places |
| Base64.DecodeEncode | pkg/vault-handler/file.go:61 | decoding an encoding gives the bytes back |
| Base64.DecodeNeedsQuanta | pkg/vault-handler/file.go:61 | only input made of whole quanta decodes |
| Gzip.DecompressCompress | pkg/vault-handler/file.go:32-42 | decompressing a compressed payload gives it back |
| Gzip.DecompressRefusesNonGzip | pkg/vault-handler/file.go:61-63 | a stream that is too short or lacks the magic bytes is refused |
| Types.CharsBytesRoundTrip | pkg/vault-handler/dot_env.go:86 | text of single-byte characters survives conversion to bytes and back |
| VaultClient.ExtractKeyOfWrap | pkg/vault-handler/vault.go:64-106 | extracting a key from what a write sent gives the written field, on kv-v2 paths and on paths without a `data` field |
| VaultClient.ExtractKeyKvV1DataEntry | pkg/vault-handler/vault.go:94-97 | outside kv-v2, an entry literally named `data` is taken for the envelope, so every key read there fails |
| VaultClient.Vault.TokenAuth | pkg/vault-handler/vault.go:41-44 | the token is set; store and request log are unchanged |
| VaultClient.Vault.AppRoleAuth | pkg/vault-handler/vault.go:19-38 | a failed login is an error; a reply without a token is a no-auth-data error; otherwise the token is the returned one; the token is unchanged on error |
| VaultClient.Vault.Write | pkg/vault-handler/vault.go:64-79 | the JSON-encoded wrapped body is logged as sent; a denied path is an error and changes nothing; otherwise the path holds that body |
| VaultClient.ReadAfterWrite | pkg/vault-handler/vault.go:47-106 | reading a key from a path just written returns the field the server received under that key, which is the written string itself when it is UTF-8 |
| VaultClient.ReadAfterWriteExample | pkg/vault-handler/vault_test.go:40-51 | writing `foo: bar` at `secret/data/foo/bar/baz` reads back `bar` |
| VaultClient.Encoded | pkg/vault-handler/vault.go:74 | a JSON-encoded string is UTF-8, and a UTF-8 string is sent unchanged; an object keeps its keys |
| VaultClient.EncodedFields | pkg/vault-handler/vault.go:74 | the encoded fields have the same keys; each string becomes UTF-8, and UTF-8 strings are kept |
| VaultClient.InvalidBytesReplaced | pkg/vault-handler/vault.go:74 | a field holding the single byte `0xFF` is read back as U+FFFD |
| Utf8.SanitizeValid | pkg/vault-handler/vault.go:74 | the JSON repair leaves well-formed UTF-8 unchanged |
| Utf8.SanitizeIsValid | pkg/vault-handler/vault.go:74 | the JSON repair always yields well-formed UTF-8 |
| Utf8.SanitizeIdempotent | pkg/vault-handler/vault.go:74 | repairing twice is repairing once |
| Utf8.InvalidByteReplaced | pkg/vault-handler/vault.go:74 | a lone `0xFF` is not UTF-8 and is repaired to U+FFFD |
| Utf8.AsciiValid | pkg/vault-handler/vault.go:74 | ASCII text is well-formed UTF-8 |
| Uploads.Staged | pkg/vault-handler/upload.go:39-44 | a zipped entry stages a value that unzips to the payload; an unzipped one stages the payload itself |
| Uploads.Aggregate | pkg/vault-handler/upload.go:47-51 | the path gains exactly the entry name with the value; other names and other paths are unchanged |
| Uploads.AggregateOverwrites | pkg/vault-handler/upload.go:51 | a second value for the same path and name replaces the first |
| Uploads.AggregateCommutes | pkg/vault-handler/upload.go:47-51 | entries with different names can be aggregated in either order |
| Uploads.PublishStoresAll | pkg/vault-handler/upload.go:57-86 | after a publish without error no path was denied, every path holds the encoded body of its fields, and every other path is unchanged |
| Uploads.PublishStopsAtFirstDenied | pkg/vault-handler/upload.go:60-65 | a failing publish stops at the first denied path with its error, keeping what the earlier paths wrote |
| Uploads.PublishStep | pkg/vault-handler/upload.go:60-65 | visiting one more path extends the publish by exactly that path's write and the request log by exactly its encoded body |
| Uploads.Upload.constructor | pkg/vault-handler/upload.go:89-96 | a new upload has the given client and input directory and nothing collected |
| Uploads.Upload.Prepare | pkg/vault-handler/upload.go:19-54 | a source error leaves the collection unchanged; otherwise the staged value is aggregated at the composed path under the entry name |
| Uploads.Upload.VaultWrite | pkg/vault-handler/upload.go:71-86 | dry-run sends nothing; otherwise exactly one write of the path's fields |
| Uploads.Upload.Execute | pkg/vault-handler/upload.go:57-68 | visits each collected path once; dry-run sends nothing; otherwise the outcome and the new store are those of Publish in visiting order |
| Downloads.Download.constructor | pkg/vault-handler/download.go:61-68 | a new download has the given client and output directory and no files |
| Downloads.Download.Prepare | pkg/vault-handler/download.go:17-40 | on error the file list is unchanged; otherwise exactly one new file is appended with the group, type, entry and received payload; earlier files are untouched |
| Downloads.Download.Execute | pkg/vault-handler/download.go:43-58 | dry-run writes nothing; otherwise the outcome is writing all targets in order, stopping at the first failure |
| Downloads.DownloadRestoresUpload | pkg/vault-handler/download.go:17-40 | reading back a staged UTF-8 value, unzipped when the entry says so, gives the original payload |
| RoundTrip.UploadThenDownload | pkg/vault-handler/upload.go:19-86 | after a publish without error, downloading a collected entry that is zipped or UTF-8 gives back the payload that was uploaded |
| RoundTrip.StagedValid | pkg/vault-handler/upload.go:39-51 | a zipped entry stages base64 text and so is UTF-8; an unzipped UTF-8 payload stages itself |
| RoundTrip.PlainBinaryUploadReplaced | pkg/vault-handler/upload.go:51 | an unzipped entry holding the byte `0xFF` downloads as U+FFFD, not as itself |
| Fs.FileSystem.Write | pkg/vault-handler/file.go:97 | a writable path then holds the data; an unwritable one is an I/O error leaving everything as it was; other paths never change |
| Fs.FileSystem.WriteFile | pkg/vault-handler/file.go:97 | the file system's new contents and error are those of Write |
| Fs.FileSystem.ReadAfterWrite | pkg/vault-handler/file.go:80-97 | after a write at a writable path, reading it gives the data, and every other path reads as before |
| Fs.FileSystem.WriteAllLastWins | pkg/vault-handler/download.go:47-56 | after writing all targets without error each target exists, holds its last value written, and untouched paths are unchanged |
| Fs.FileSystem.WriteAllStopsAtFirstError | pkg/vault-handler/download.go:53-55 | a failing run stops at the first unwritable target with its error, keeping the earlier writes |
| Fs.FileSystem.WriteAllAfterError | pkg/vault-handler/download.go:53-55 | nothing after the first failure is written |
| Kube.TrimNewlines | pkg/vault-handler/kubernetes.go:68 | the result is a prefix without a trailing newline, and only newlines were removed |
| Kube.TrimNewlinesNoop | pkg/vault-handler/kubernetes.go:68 | trimming changes nothing exactly when there is no trailing newline |
| Kube.TrimNewlinesIdempotent | pkg/vault-handler/kubernetes.go:68 | trimming twice is trimming once |
| Kube.Find | pkg/vault-handler/kubernetes.go:88-93 | finds a secret of that name exactly when one is listed |
| Kube.Remove | pkg/vault-handler/kubernetes.go:100-102 | removes exactly the secrets of that name |
| Kube.FindRemove | pkg/vault-handler/kubernetes.go:100-102 | deleting one name does not change what another name finds |
| Kube.FindAppend | pkg/vault-handler/kubernetes.go:47 | a created secret is found unless an earlier one has the same name |
| Kube.RemoveUnique | pkg/vault-handler/kubernetes.go:100-102 | deleting keeps names unique |
| Kube.ViewIsData | pkg/vault-handler/kubernetes.go:66-71 | a read returns the stored data exactly when no value ends in a newline |
| Kube.WriteOutcomeStores | pkg/vault-handler/kubernetes.go:29-51 | after a write without error the name finds exactly the new secret, other names are unchanged, and names stay unique |
| Kube.Kubernetes.SecretExists | pkg/vault-handler/kubernetes.go:77-97 | a failing list is an error and not-found; otherwise found exactly when a secret has the name |
| Kube.Kubernetes.SecretRead | pkg/vault-handler/kubernetes.go:54-74 | a failing get is an error; a missing secret is not-found; otherwise the trimmed view of the secret |
| Kube.Kubernetes.SecretDelete | pkg/vault-handler/kubernetes.go:100-102 | a failing or missing delete changes nothing; otherwise exactly that name is removed |
| Kube.Kubernetes.SecretWrite | pkg/vault-handler/kubernetes.go:29-51 | the new secret list and the error are those of the exists-delete-create sequence |
| Kube.WriteThenReadExample | pkg/vault-handler/kubernetes_test.go:22-42 | writing `test: test` is found and read back as `test: test` |
| Copies.MembersPartition | pkg/vault-handler/copy.go:25-28 | every file is in its group's list; a group name occurs exactly when its list is non-empty |
| Copies.GroupFiles | pkg/vault-handler/copy.go:25-28 | the grouping loop computes the group map of the files in order |
| Copies.GroupedIsMembers | pkg/vault-handler/copy.go:25-28 | the group map has one key per group, each holding its files in download order |
| Copies.CollectNames | pkg/vault-handler/copy.go:70-77 | the loop computes the name-to-payload map, or the duplicate-name error |
| Copies.NameMapOk | pkg/vault-handler/copy.go:70-77 | the map is built exactly when names are distinct, and then maps each file's name to its payload and nothing else |
| Copies.NameMapAfterError | pkg/vault-handler/copy.go:73-75 | after a duplicate no later file changes the error |
| Copies.StampSpec | pkg/vault-handler/copy.go:31-33 | every visited group gets the type of the first downloaded file; other groups keep theirs |
| Copies.SyncAllStores | pkg/vault-handler/copy.go:47-56 | after an execute without error every visited group is a secret with its type and data; other names are unchanged |
| Copies.CopyAgainIsNoop | pkg/vault-handler/copy.go:80-99 | once a group is written, comparing it again finds no change exactly when no value ends in a newline |
| Copies.Copy.constructor | pkg/vault-handler/copy.go:105-113 | a new copy has the given clients and empty types and data |
| Copies.Decision | pkg/vault-handler/copy.go:79-99 | a failed map, listing or read of an existing secret is an error; the map is kept exactly when the secret is absent or its trimmed data differs, and what is kept is the map itself |
| Copies.CompareAllRecords | pkg/vault-handler/copy.go:30-40 | after comparing every group without error, a group is recorded exactly when it was before or its secret is stale, and a stale group is recorded with the map of its files |
| Copies.Copy.Compare | pkg/vault-handler/copy.go:61-102 | the collected data and error follow the duplicate, exists, read and equality decisions for the group |
| Copies.Copy.Visit | pkg/vault-handler/copy.go:30-37 | one group: its type is stamped when it has files, then it is compared |
| Copies.Copy.CompareGroups | pkg/vault-handler/copy.go:30-40 | visits each group once, stamping types and comparing in visiting order, stopping at the first error |
| Copies.Copy.Prepare | pkg/vault-handler/copy.go:21-41 | groups the downloaded files, then stamps and compares every group in visiting order |
| Copies.Copy.Execute | pkg/vault-handler/copy.go:44-58 | dry-run writes nothing; otherwise each collected group is written in visiting order, stopping at the first error |
| DotEnvs.EnvVarName | pkg/vault-handler/dot_env.go:93-96 | the name is the upper-cased group, an underscore, the upper-cased entry name, an underscore and the upper-cased extension |
| DotEnvs.EnvVarNameExample | pkg/vault-handler/dot_env_test.go:48 | group `dotenv`, entry `dotenv.txt` is `DOTENV_DOTENV_TXT` |
| DotEnvs.ToUpperConcat | pkg/vault-handler/dot_env.go:95 | upper-casing distributes over concatenation |
| DotEnvs.ToUpperIdempotent | pkg/vault-handler/dot_env.go:95 | upper-cased text has no lower-case letter left, so upper-casing again changes nothing |
| DotEnvs.LoadLastWins | pkg/vault-handler/dot_env.go:83-90 | after loading, each variable holds the value of the last file with that name, or its earlier value |
| DotEnvs.LoadWarnings | pkg/vault-handler/dot_env.go:98-101 | loading only appends warnings, each naming a variable of a loaded file |
| DotEnvs.DotEnv.constructor | pkg/vault-handler/dot_env.go:106-118 | the path is `<outputDir>/.env`, the files are kept, data and warnings are empty |
| DotEnvs.DotEnv.Put | pkg/vault-handler/dot_env.go:98-103 | the key is set to the value, with a warning exactly when it was already present |
| DotEnvs.DotEnv.LoadFiles | pkg/vault-handler/dot_env.go:83-90 | data and warnings are those of putting every file's variable in order |
| DotEnvs.DotEnv.ReadExisting | pkg/vault-handler/dot_env.go:67-80 | an unreadable or unsourceable file is an error and changes nothing; otherwise every sourced variable is put, so the data becomes the old data overridden by the file's |
| DotEnvs.DotEnv.Prepare | pkg/vault-handler/dot_env.go:25-36 | the files are loaded; a missing `.env` stops there, with the load's warnings; an existing one is merged in, adding warnings that name exactly the loaded variables it sets again, or its error is returned |
| DotEnvs.DotEnv.Escape | pkg/vault-handler/dot_env.go:44-47 | one `KEY=quoted-value` line per variable, each variable once |
| DotEnvs.DotEnv.Write | pkg/vault-handler/dot_env.go:39-64 | corrected member of the dot_env.go:54 finding: dry-run writes nothing; otherwise the file is truncated and becomes exactly the rendered lines, so after a successful write the file sources back to exactly the data (valid names, single-byte text) |
| DotEnvs.JoinLines | pkg/vault-handler/dot_env.go:58-62 | the written text is the lines one after another |
| DotEnvs.MergeSpec | pkg/vault-handler/dot_env.go:75-78 | after merging, sourced keys take the sourced value, the rest keep theirs, and warnings name exactly the keys that were already present |
| DotEnvs.MergeAll | pkg/vault-handler/dot_env.go:75-78 | merging every sourced variable gives the old data overridden by the sourced data, whatever the order |
| DotEnvs.WrittenSourcesBack | pkg/vault-handler/dot_env.go:39-80 | a written `.env` sources back to exactly the data written, for valid names and single-byte text |
| DotEnvs.OverwriteInPlace | pkg/vault-handler/dot_env.go:54 | writing over a longer file without truncation keeps the old tail after the new bytes |
| DotEnvs.ReopenLeavesStaleTail | pkg/vault-handler/dot_env.go:54 | an existing `A="1"` rewritten as `A=1` leaves a file that no longer sources |
| Shell.SourceLines | pkg/vault-handler/dot_env.go:44-47 | sourcing the rendered lines of valid names gives exactly the data |
| Shell.QuoteWord | pkg/vault-handler/dot_env.go:46 | a quoted value followed by a word end reads back as the value itself |
| Shell.StrayQuoteRejected | pkg/vault-handler/dot_env.go:71 | a line with an unterminated double quote does not source |
| Shell.DoubleQuotedValue | pkg/vault-handler/dot_env.go:71 | `A="1"` sources as `A` = `1` |
| Handlers.PersistOutcome | pkg/vault-handler/handler.go:16-41 | a zipped payload that does not unzip is a codec error and writes nothing; dry-run writes nothing; otherwise exactly the file's path gets the (unzipped) payload |
| Handlers.Handler.constructor | pkg/vault-handler/handler.go:89-98 | the handler holds the given configuration and client |
| Handlers.Handler.Persist | pkg/vault-handler/handler.go:16-41 | the new files and the error are those of PersistOutcome |
| Handlers.Handler.RunGroup | pkg/vault-handler/handler.go:61-82 | reads and persists each entry of one group in order, stopping at the first error |
| Handlers.Handler.Run | pkg/vault-handler/handler.go:44-86 | authenticates by token or AppRole, stopping with nothing written on a login error; then runs every group once in visiting order; the store is never changed |
| Handlers.EntriesStopAt | pkg/vault-handler/handler.go:74-81 | once an entry fails, later entries change nothing |
| Handlers.EntriesDryRun | pkg/vault-handler/handler.go:32-33 | a dry run of a group writes no file |
| Handlers.GroupsDryRun | pkg/vault-handler/handler.go:32-33 | a dry run of the manifest writes no file |
| Handlers.EntriesWriteAll | pkg/vault-handler/handler.go:61-82 | after a group without error every earlier file remains and every entry's file exists |
| Handlers.GroupsWriteAll | pkg/vault-handler/handler.go:57-83 | after a run without error every entry of every group has its file and no earlier file is lost |
| Handlers.EntriesContent | pkg/vault-handler/handler.go:61-82 | the file of an entry not overwritten later holds what Vault returned, unzipped when the entry says so |
| Handlers.JoinInjective | pkg/vault-handler/handler.go:19-20 | different file names under one directory are different paths |

## Left out

- HTTP, the Vault API client and the Kubernetes client-go client are not modelled. Their effect is a store, a set of denied paths or failing calls, and a log of requests. `NewVault`, `setHeaders`, the kube-config loading in `kubernetes.go` and the AppRole request itself are left out. The AppRole login reply is a parameter.
- The YAML manifest and `NewManifest` are left out. A manifest is a value of `Manifests.Manifest`.
- Logging is left out, except the dot-env overwrite warnings, which `DotEnv` keeps as a list.
- The `cmd/` command-line programs and their environment handling are left out.
- File permissions (0600), `Sync` and `Close` are left out.
- Gzip.Compress: a stored-block stream with a header and a size trailer stands in for deflate. CRC-32 and compression levels are not modelled. Only the round trip and the refusal of non-gzip input are claimed.
- Base64.Decode: non-canonical trailing bits are accepted, as Go's non-strict decoder does. Characters outside the alphabet are refused.
- Files.File.Unzip: after a good gzip header, a failing body read in Go leaves a partial payload. The model keeps the old payload on every codec error.
- Files.File.Zip: the model cannot fail. Go's writer errors cannot happen on an in-memory buffer.
- VaultClient.Unwrap: Go's single-value type assertion panics when `data` is not a map. The model returns the envelope error instead.
- VaultClient.Vault: the store keeps the JSON-encoded body of what was written. Vault's own kv-v2 response shape (with `metadata`) is not modelled. JSON object keys are kept as they are; only string values are repaired to UTF-8.
- RoundTrip.UploadThenDownload: holds only for zipped or UTF-8 payloads. `string(file.Payload)` goes into a JSON request, and `encoding/json` replaces each byte that does not start well-formed UTF-8 with U+FFFD. A plain binary payload does not come back (`RoundTrip.PlainBinaryUploadReplaced`).
- DotEnvs.ToUpper: only ASCII letters are upper-cased. Go's `strings.ToUpper` also maps other Unicode letters.
- DotEnvs.DotEnv.Write: the lines are written in one write. Per-line `WriteString` errors and a partly written file are not modelled.
- Types.CharsToBytes: characters are treated as single Latin-1 bytes. UTF-8 encoding is not modelled.
- Shell.Source: only a subset of shell is modelled. It covers `NAME=word` lines, where a word is plain characters, single quotes or double quotes. Comments, `export`, escapes, expansions and commands are refused or not modelled. The shell's own variables, which `shell.SourceFile` also returns, are not modelled.
- Copies.Decision: `reflect.DeepEqual` is taken as map equality. The nil-versus-empty distinction for a secret without data is not modelled.
- Downloads.Download.Prepare: the source calls a three-argument `NewFile` that `file.go` does not define. The model uses the four-argument form and passes the group's secret type, which `Copy.Prepare` reads.
- Downloads.Download.Execute: a dry run only logs, so the model skips the loop.
- `composePath` is called on the Vault client but is not defined in `vault.go`. `Manifests.ComposePath` follows the inline version in `handler.go:66-69`, where `path.Join` puts the entry name after the group path.
- Handlers: `handler.go` is an older revision. It reads a field `Unzip` (the manifest's `zip`) and a two-argument `NewFile`. The model writes the unzipped payload at `path.Join(outputDir, "<group>.<name>.<extension>")`, as `persist` says.
- Paths.Join: `path.Join` also cleans `..`, `.` and repeated slashes. The model only joins with one separator.
- `.env` precedence: manifest files are loaded first, and the existing `.env` is merged on top, so on a shared name the existing value wins.
- The upload code has no per-entry key override and no duplicate-key error. A second entry with the same name at the same path silently replaces the first (`Uploads.AggregateOverwrites`).

## Findings

| source | as written | input that shows it | evidently intended | confidence | as-written member | corrected member |
|---|---|---|---|---|---|---|
| pkg/vault-handler/dot_env.go:54 | the `.env` file is reopened with create and read-write flags but no truncate, then overwritten from the start | an existing `.env` holding `A="1"` plus a newline, rewritten with the same data as `A=1` plus a newline, leaves the stale tail `"` plus a newline, and the file no longer sources | truncate the file before writing, so it holds exactly the new lines | not executed | DotEnvs.ReopenLeavesStaleTail | DotEnvs.DotEnv.Write |
