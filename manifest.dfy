/** The records a manifest decodes into (manifest.go) and the composition of
    an entry's vault path. */
module Manifests {
  import Paths

  /** One secret entry; it maps to one file on disk and one key in a vault path. */
  datatype SecretData = SecretData(
    name: string,
    extension: string,
    zip: bool,            // payload is gzip+base64 in the vault
    nameAsSubPath: bool,  // the entry name is appended to the group path
    fromEnv: string)      // upload takes the payload from this variable if set

  /** One group: its vault path, its cluster secret type and its entries. */
  datatype Secrets = Secrets(path: string, secretType: string, data: seq<SecretData>)

  /** Group name to group. */
  datatype Manifest = Manifest(secrets: map<string, Secrets>)

  /** The vault path of an entry: the group path, or the group path with the
      entry name as a last segment. */
  function ComposePath(data: SecretData, vaultPath: string): (p: string)
    ensures !data.nameAsSubPath ==> p == vaultPath
    ensures data.nameAsSubPath && vaultPath != "" && data.name != "" ==> p == vaultPath + "/" + data.name
    ensures data.nameAsSubPath && vaultPath == "" ==> p == data.name
  {
    if data.nameAsSubPath then Paths.Join(vaultPath, data.name) else vaultPath
  }
}
