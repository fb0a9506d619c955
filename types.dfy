/** Result and error values shared by the model of the modpack installer. */
module Types {

  datatype Option<+T> = None | Some(value: T)

  /** Every way an install ends early. In the installer each of these is a
      `sys.exit(1)` or an exception that nothing catches; here it is a value. */
  datatype Error =
    | ApiUnavailable          // the version list could not be fetched
    | NoVersions              // the project has no versions
    | VersionFileUnreadable   // `.modpack_version` exists but is a directory
    | NoMrpack                // the latest version ships no `.mrpack` file
    | ArchiveDownloadFailed   // the `.mrpack` itself could not be fetched
    | BadArchive              // the `.mrpack` is not a readable zip
    | MissingIndex            // no `modrinth.index.json` in the archive
    | BadIndex                // the index is a directory or is not valid JSON
    | ModsNotDirectory        // `mods` exists in the instance but is a file
    | NoDownloadUrl           // a queued manifest entry has an empty `downloads` list
    | OverrideConflict        // copying an override tree hit a file/directory clash
    | VersionFileUnwritable   // `.modpack_version` is a directory when it is saved

  datatype Result<+T> = Ok(value: T) | Err(error: Error)
}
