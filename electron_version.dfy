/** `src/main/utils/version.ts`: the version in use, kept in `~/.nvmd/default` and cached
    in the process, and the removal of an installed version. A failing write or removal
    is an input, given as the error message it rejects with. */
module ElectronVersion {
  import opened Wrappers

  /** The files the module touches: the `default` file and the version directories under
      the install directory. */
  class Files {
    var defaultFile: Option<string>
    var versionDirs: set<string>

    constructor(defaultFile: Option<string>, versionDirs: set<string>)
      ensures this.defaultFile == defaultFile && this.versionDirs == versionDirs
    {
      this.defaultFile := defaultFile;
      this.versionDirs := versionDirs;
    }
  }

  /** `getCurrentVersion` on values: the result and the new cache. The cache answers
      unless a fetch is asked for; a missing file gives '' and leaves the cache alone;
      otherwise the file's text is cached. */
  function Current(cache: Option<string>, fetch: bool, file: Option<string>): (r: (string, Option<string>))
    ensures cache.Some? && !fetch ==> r == (cache.value, cache)
    ensures (cache.None? || fetch) && file.None? ==> r == ("", cache)
    ensures (cache.None? || fetch) && file.Some? ==> r == (file.value, file)
  {
    if cache.Some? && !fetch then (cache.value, cache)
    else if file.None? then ("", cache)
    else (file.value, file)
  }

  /** After a successful set, reading gives the new version whether or not a fetch is
      asked for. */
  lemma GetAfterSet(newVersion: string, fetch: bool)
    ensures Current(Some(newVersion), fetch, Some(newVersion)) == (newVersion, Some(newVersion))
  {
  }

  /** After the `default` file is removed, a read without fetch still answers the cached
      version, and a fetch answers '' but keeps the stale cache. */
  lemma GetAfterUninstall(cached: string, fetch: bool)
    ensures Current(Some(cached), fetch, None) == (if fetch then "" else cached, Some(cached))
  {
  }

  /** The module's cache. */
  class VersionCache {
    var version: Option<string>

    constructor()
      ensures version.None?
    {
      version := None;
    }

    /** `getCurrentVersion`. */
    method GetCurrentVersion(fetch: bool, files: Files) returns (r: string)
      modifies this
      ensures (r, version) == Current(old(version), fetch, files.defaultFile)
    {
      if version.Some? && !fetch {
        return version.value;
      }
      if files.defaultFile.None? {
        return "";
      }
      version := files.defaultFile;
      return version.value;
    }

    /** `setCurrentVersion`: the file is written first; a failed write rejects and leaves
        the cache as it was. */
    method SetCurrentVersion(newVersion: string, writeError: Option<string>, files: Files) returns (r: Status)
      modifies this, files
      ensures writeError.Some? ==>
        (r == Failed(writeError.value) && version == old(version) && files.defaultFile == old(files.defaultFile))
      ensures writeError.None? ==> r == Done && version == Some(newVersion) && files.defaultFile == Some(newVersion)
      ensures files.versionDirs == old(files.versionDirs)
    {
      if writeError.Some? {
        return Failed(writeError.value);
      }
      files.defaultFile := Some(newVersion);
      version := Some(newVersion);
      return Done;
    }
  }

  /** `uninstallVersion`: the version's directory goes, then the `default` file when the
      version is the current one; the first failing removal rejects with its message and
      stops. The cache is not touched. */
  method UninstallVersion(target: string, current: bool, dirError: Option<string>, defaultError: Option<string>,
                          files: Files) returns (r: Status)
    modifies files
    ensures dirError.Some? ==>
      (r == Failed(dirError.value) && files.versionDirs == old(files.versionDirs) && files.defaultFile == old(files.defaultFile))
    ensures dirError.None? ==> files.versionDirs == old(files.versionDirs) - {target}
    ensures dirError.None? && !current ==> r == Done && files.defaultFile == old(files.defaultFile)
    ensures dirError.None? && current && defaultError.Some? ==>
      r == Failed(defaultError.value) && files.defaultFile == old(files.defaultFile)
    ensures dirError.None? && current && defaultError.None? ==> r == Done && files.defaultFile.None?
  {
    if dirError.Some? {
      return Failed(dirError.value);
    }
    files.versionDirs := files.versionDirs - {target};
    if current {
      if defaultError.Some? {
        return Failed(defaultError.value);
      }
      files.defaultFile := None;
    }
    return Done;
  }
}
