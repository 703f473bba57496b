/** `all-node-versions` (`src/main/deps/all-node-versions`): the list of released
    versions, kept in the process and in a file on disk, and the list of installed
    versions, kept in the process. The versions file holds a JSON value: a list, or null.
    Fetching the index is an input. */
module AllNodeVersions {
  import opened Wrappers
  import Strings

  /** `getCache`: nothing when a fetch is forced or the file is missing; otherwise the
      file's JSON, where null reads as nothing and text that does not parse throws
      `readJsonSync`'s error. The file is given decoded: missing, unparsable, or a value. */
  function GetCache<V>(fetch: bool, file: Option<Result<Option<seq<V>>>>): (r: Result<Option<seq<V>>>)
    ensures fetch || file.None? ==> r == Ok(None)
    ensures !fetch && file.Some? ==> r == file.value
  {
    if fetch || file.None? then Ok(None) else file.value
  }

  /** What the index request delivers to `setCache`'s `response` handler: no response at
      all, a response whose file cannot be opened, or a body streamed into the file, with
      the number of characters written before the stream broke, if it did. */
  datatype Reply = NoResponse | OpenFailed | Streamed(body: string, brokenAt: Option<nat>)

  /** What the stream leaves in the file: the body, or the part of it written before the
      stream broke. */
  function Written(body: string, brokenAt: Option<nat>): string
  {
    if brokenAt.Some? && brokenAt.value < |body| then body[..brokenAt.value] else body
  }

  /** `setCache`: the versions file, unless it exists and no fetch is forced, is created
      or truncated when the response arrives and takes what the stream writes into it;
      every error is only logged. */
  function SetCache(file: Option<string>, fetch: bool, reply: Reply): (r: Option<string>)
    ensures file.Some? && !fetch ==> r == file
    ensures (file.None? || fetch) && (reply.NoResponse? || reply.OpenFailed?) ==> r == file
    ensures (file.None? || fetch) && reply.Streamed? ==>
      r.Some? && r.value <= reply.body && (r.value == reply.body <==> reply.brokenAt.None? || |reply.body| <= reply.brokenAt.value)
  {
    if file.Some? && !fetch then file
    else if reply.Streamed? then Some(Written(reply.body, reply.brokenAt))
    else file
  }

  /** Where an installed version keeps its binary. */
  function BinaryOf(installDir: string, version: string, platform: string): string
  {
    installDir + "/" + version + "/" + (if platform == "win32" then "node.exe" else "bin/node")
  }

  /** The directory entries whose binary exists, in directory order. */
  function WithBinary(entries: seq<string>, present: set<string>, installDir: string, platform: string): (r: seq<string>)
    ensures forall v :: v in r <==> v in entries && BinaryOf(installDir, v, platform) in present
    ensures |r| <= |entries|
  {
    if entries == [] then []
    else
      var rest := WithBinary(entries[1..], present, installDir, platform);
      if BinaryOf(installDir, entries[0], platform) in present then [entries[0]] + rest else rest
  }

  /** The kept entries appear in the order of the directory listing. */
  lemma {:induction false} WithBinaryInOrder(entries: seq<string>, present: set<string>, installDir: string, platform: string)
    ensures Strings.Subsequence(WithBinary(entries, present, installDir, platform), entries)
    decreases |entries|
  {
    if entries != [] {
      WithBinaryInOrder(entries[1..], present, installDir, platform);
      var rest := WithBinary(entries[1..], present, installDir, platform);
      if BinaryOf(installDir, entries[0], platform) in present {
        assert ([entries[0]] + rest)[1..] == rest;
      }
    }
  }

  /** `getInstalledVersions`: no versions without the install directory; otherwise the
      entries holding a binary. */
  function GetInstalledVersions(dirExists: bool, entries: seq<string>, present: set<string>,
                                installDir: string, platform: string): (r: seq<string>)
    ensures !dirExists ==> r == []
    ensures dirExists ==> forall v :: v in r <==> v in entries && BinaryOf(installDir, v, platform) in present
  {
    if !dirExists then [] else WithBinary(entries, present, installDir, platform)
  }

  /** `allNodeVersions` on the process cache: the result and the new cache. The process
      cache answers unless a fetch is forced; otherwise the versions file answers without
      filling the process cache; otherwise the fetched index is cached and returned. */
  function AllVersions<V>(cached: Option<seq<V>>, fetch: Option<bool>, file: Option<Result<Option<seq<V>>>>,
                          fetched: Result<seq<V>>): (r: (Result<seq<V>>, Option<seq<V>>))
    ensures cached.Some? && fetch != Some(true) ==> r == (Ok(cached.value), cached)
    ensures (cached.None? || fetch == Some(true)) && GetCache(fetch == Some(true), file).Err? ==>
      r == (Err(GetCache(fetch == Some(true), file).error), cached)
    ensures (cached.None? || fetch == Some(true)) && GetCache(fetch == Some(true), file) == Ok(None) ==>
      r == (if fetched.Ok? then (fetched, Some(fetched.value)) else (fetched, cached))
    ensures (cached.None? || fetch == Some(true)) && GetCache(fetch == Some(true), file).Ok? && GetCache(fetch == Some(true), file).value.Some? ==>
      r == (Ok(GetCache(fetch == Some(true), file).value.value), cached)
  {
    if cached.Some? && fetch != Some(true) then (Ok(cached.value), cached)
    else
      var fromDisk := GetCache(fetch == Some(true), file);
      if fromDisk.Err? then (Err(fromDisk.error), cached)
      else if fromDisk.value.Some? then (Ok(fromDisk.value.value), cached)
      else if fetched.Ok? then (fetched, Some(fetched.value))
      else (fetched, cached)
  }

  /** Once an index has been fetched, later calls that do not force a fetch return it
      whatever the disk and the network hold. */
  lemma FetchedIsKept<V>(cached: Option<seq<V>>, file: Option<Result<Option<seq<V>>>>, index: seq<V>,
                         laterFetch: Option<bool>, laterFile: Option<Result<Option<seq<V>>>>, laterFetched: Result<seq<V>>)
    requires laterFetch != Some(true)
    ensures var (_, next) := AllVersions(cached, Some(true), file, Ok(index));
      AllVersions(next, laterFetch, laterFile, laterFetched) == (Ok(index), Some(index))
  {
  }

  /** A versions file that a broken stream left unparsable makes later unforced reads
      without a process cache fail with the parse error. */
  lemma BrokenFileFails<V>(parseError: string, fetched: Result<seq<V>>)
    ensures AllVersions(None, None, Some(Err(parseError)), fetched) == (Err(parseError), None)
  {
  }

  /** The module's process-wide caches. */
  class Caches<V> {
    var processCachedVersions: Option<seq<V>>
    var installedVersions: Option<seq<string>>

    constructor()
      ensures processCachedVersions.None? && installedVersions.None?
    {
      processCachedVersions := None;
      installedVersions := None;
    }

    /** `allNodeVersions`. */
    method AllNodeVersions(fetch: Option<bool>, file: Option<Result<Option<seq<V>>>>, fetched: Result<seq<V>>)
      returns (r: Result<seq<V>>)
      modifies this
      ensures (r, processCachedVersions) == AllVersions(old(processCachedVersions), fetch, file, fetched)
      ensures installedVersions == old(installedVersions)
    {
      if processCachedVersions.Some? && fetch != Some(true) {
        return Ok(processCachedVersions.value);
      }
      var cachedVersions := GetCache(fetch == Some(true), file);
      if cachedVersions.Err? {
        return Err(cachedVersions.error);
      }
      if cachedVersions.value.Some? {
        return Ok(cachedVersions.value.value);
      }
      if fetched.Err? {
        return fetched;
      }
      processCachedVersions := Some(fetched.value);
      return fetched;
    }

    /** `allInstalledNodeVersions`: the cached list unless a refresh is asked for or
        nothing is cached yet; a refresh reads the directory and replaces the cache. */
    method AllInstalledNodeVersions(refresh: bool, dirExists: bool, entries: seq<string>, present: set<string>,
                                    installDir: string, platform: string) returns (r: seq<string>)
      modifies this
      ensures old(installedVersions).Some? && !refresh ==> r == old(installedVersions).value && installedVersions == old(installedVersions)
      ensures old(installedVersions).None? || refresh ==>
        r == GetInstalledVersions(dirExists, entries, present, installDir, platform) && installedVersions == Some(r)
      ensures processCachedVersions == old(processCachedVersions)
    {
      if installedVersions.Some? && !refresh {
        return installedVersions.value;
      }
      var versions := GetInstalledVersions(dirExists, entries, present, installDir, platform);
      installedVersions := Some(versions);
      return versions;
    }
  }
}
