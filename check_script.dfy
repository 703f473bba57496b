/** `scripts/check.mjs`: the build script that fetches the `nvmd` shim for a target into
    the Tauri resource directory. The command line, the host's platform and architecture,
    the environment and the outcome of the download and the unzip are inputs; the file
    system is the set of paths that exist. */
module CheckScript {
  import opened Wrappers
  import Strings

  const Force := "--force"
  const NvmdReleaseUrl := "https://github.com/1111mp/nvmd-command/releases/latest/download"

  /** The Rust target triples the script knows, with their Node platform and arch. */
  const PlatformMap: map<string, string> := map[
    "x86_64-pc-windows-msvc" := "win32", "aarch64-pc-windows-msvc" := "win32",
    "x86_64-apple-darwin" := "darwin", "aarch64-apple-darwin" := "darwin",
    "x86_64-unknown-linux-gnu" := "linux", "aarch64-unknown-linux-gnu" := "linux"]

  const ArchMap: map<string, string> := map[
    "x86_64-pc-windows-msvc" := "x64", "aarch64-pc-windows-msvc" := "arm64",
    "x86_64-apple-darwin" := "x64", "aarch64-apple-darwin" := "arm64",
    "x86_64-unknown-linux-gnu" := "x64", "aarch64-unknown-linux-gnu" := "arm64"]

  /** The release asset name of each supported `platform-arch` pair. */
  const LatestMap: map<string, string> := map[
    "win32-x64" := "Win32-x64", "win32-arm64" := "Win32-arm64",
    "darwin-x64" := "Macos-x64", "darwin-arm64" := "Macos-arm64",
    "linux-x64" := "Linux-x64", "linux-arm64" := "Linux-arm64"]

  /** `FORCE`: the flag anywhere on the command line. */
  predicate Forced(argv: seq<string>)
  {
    Force in argv
  }

  /** `process.argv.slice(2)[k]`, undefined past the end. */
  function UserArg(argv: seq<string>, k: nat): (r: Option<string>)
    ensures r.Some? <==> k + 2 < |argv|
    ensures r.Some? ==> r.value == argv[k + 2]
  {
    if k + 2 < |argv| then Some(argv[k + 2]) else None
  }

  /** The target: the second argument after a leading "--force", else the first. */
  function Target(argv: seq<string>): (r: Option<string>)
    ensures UserArg(argv, 0) == Some(Force) ==> r == UserArg(argv, 1)
    ensures UserArg(argv, 0) != Some(Force) ==> r == UserArg(argv, 0)
  {
    if UserArg(argv, 0) == Some(Force) then UserArg(argv, 1) else UserArg(argv, 0)
  }

  /** A lookup in a plain object: undefined for an unknown key. */
  function Lookup(m: map<string, string>, key: string): (r: Option<string>)
    ensures key in m <==> r.Some?
    ensures key in m ==> r.value == m[key]
  {
    if key in m then Some(m[key]) else None
  }

  /** The platform and arch the script builds for: the target's when a non-empty target
      is given (undefined when the maps do not know it), the host's otherwise. */
  function Selected(argv: seq<string>, hostPlatform: string, hostArch: string): (r: (Option<string>, Option<string>))
    ensures Target(argv).Some? && Target(argv).value != "" ==>
      r == (Lookup(PlatformMap, Target(argv).value), Lookup(ArchMap, Target(argv).value))
    ensures Target(argv).None? || Target(argv).value == "" ==> r == (Some(hostPlatform), Some(hostArch))
  {
    var t := Target(argv);
    if t.Some? && t.value != "" then (Lookup(PlatformMap, t.value), Lookup(ArchMap, t.value))
    else (Some(hostPlatform), Some(hostArch))
  }

  /** A value placed in a template string. */
  function Shown(o: Option<string>): string
  {
    if o.Some? then o.value else "undefined"
  }

  function PairKey(platform: Option<string>, arch: Option<string>): string
  {
    Shown(platform) + "-" + Shown(arch)
  }

  function Unsupported(key: string): string
  {
    "nvmd unsupported platform \"" + key + "\""
  }

  /** The supported-check run when the script loads: the release asset name, or the
      error thrown before anything is done. */
  function AssetName(platform: Option<string>, arch: Option<string>): (r: Result<string>)
    ensures PairKey(platform, arch) in LatestMap <==> r.Ok?
    ensures r.Ok? ==> r.value == LatestMap[PairKey(platform, arch)]
    ensures r.Err? ==> r.error == Unsupported(PairKey(platform, arch))
  {
    var key := PairKey(platform, arch);
    if key in LatestMap then Ok(LatestMap[key]) else Err(Unsupported(key))
  }

  /** Every known target is supported, and carries its own platform's asset. */
  lemma KnownTargetsSupported(target: string)
    requires target in PlatformMap
    ensures target in ArchMap
    ensures AssetName(Some(PlatformMap[target]), Some(ArchMap[target])).Ok?
  {
    var t := target;
    assert t == "x86_64-pc-windows-msvc" || t == "aarch64-pc-windows-msvc" || t == "x86_64-apple-darwin"
      || t == "aarch64-apple-darwin" || t == "x86_64-unknown-linux-gnu" || t == "aarch64-unknown-linux-gnu";
    var key := PairKey(Some(PlatformMap[t]), Some(ArchMap[t]));
    assert key in LatestMap by {
      if t == "x86_64-pc-windows-msvc" {
        assert key == "win32-x64";
      } else if t == "aarch64-pc-windows-msvc" {
        assert key == "win32-arm64";
      } else if t == "x86_64-apple-darwin" {
        assert key == "darwin-x64";
      } else if t == "aarch64-apple-darwin" {
        assert key == "darwin-arm64";
      } else if t == "x86_64-unknown-linux-gnu" {
        assert key == "linux-x64";
      } else {
        assert key == "linux-arm64";
      }
    }
  }

  /** An unknown target fails as "undefined-undefined". */
  lemma UnknownTargetRejected(argv: seq<string>, hostPlatform: string, hostArch: string)
    requires Target(argv).Some? && Target(argv).value != "" && Target(argv).value !in PlatformMap
    ensures var (platform, arch) := Selected(argv, hostPlatform, hostArch);
      AssetName(platform, arch) == Err(Unsupported("undefined-undefined"))
  {
    var t := Target(argv).value;
    assert t !in ArchMap by {
      assert ArchMap.Keys == PlatformMap.Keys;
    }
    assert Selected(argv, hostPlatform, hostArch) == (None, None);
    UndefinedPairRejected();
  }

  /** No asset is named "undefined-undefined". */
  lemma UndefinedPairRejected()
    ensures AssetName(None, None) == Err(Unsupported("undefined-undefined"))
  {
    assert PairKey(None, None) == "undefined-undefined";
    assert "undefined-undefined" !in LatestMap by {
      assert LatestMap.Keys == {"win32-x64", "win32-arm64", "darwin-x64", "darwin-arm64", "linux-x64", "linux-arm64"};
      assert "undefined-undefined"[0] == 'u';
    }
  }

  /** The shim's file name: `nvmd.exe` on Windows, `nvmd` elsewhere. */
  function ShimName(platform: Option<string>): string
  {
    if platform == Some("win32") then "nvmd.exe" else "nvmd"
  }

  function DownloadUrl(asset: string): string
  {
    NvmdReleaseUrl + "/" + asset + ".zip"
  }

  /** `path.join(dir, name)` for a relative name without "." or ".." parts. */
  function PathJoin(dir: string, name: string): string
  {
    if name == "" then dir else dir + "/" + name
  }

  /** Where an archive entry lands: its name without the first path component, under the
      resource directory. */
  function EntryTarget(resDir: string, entryName: string): string
  {
    PathJoin(resDir, Strings.Join(Strings.Split(entryName, '/')[1..], "/"))
  }

  /** An entry `top/rest` lands at `resDir/rest`, and the top directory itself at
      `resDir`. */
  lemma {:induction false} EntryTargetDropsTop(resDir: string, top: string, rest: string)
    requires '/' !in top
    ensures EntryTarget(resDir, top + "/" + rest) == PathJoin(resDir, rest)
  {
    Strings.SplitPrefix(top, rest, '/');
    assert top + "/" + rest == top + ['/'] + rest;
    assert Strings.Split(top + "/" + rest, '/')[1..] == Strings.Split(rest, '/');
    Strings.JoinSplit(rest, '/');
  }

  /** The part of a path after its last '/' (all of it when there is none). */
  function AfterLastSlash(s: string): (r: string)
    ensures '/' !in r
    decreases |s|
  {
    if s == [] then []
    else if s[|s| - 1] == '/' then []
    else AfterLastSlash(s[..|s| - 1]) + [s[|s| - 1]]
  }

  /** The part of a path before its last '/' (empty when there is none). */
  function BeforeLastSlash(s: string): string
    decreases |s|
  {
    if s == [] then []
    else if s[|s| - 1] == '/' then s[..|s| - 1]
    else BeforeLastSlash(s[..|s| - 1])
  }

  /** `path.dirname` of a path without a trailing '/': "." with no directory part, "/"
      for a path just under the root. */
  function Dirname(s: string): string
  {
    if '/' !in s then "." else if BeforeLastSlash(s) == "" then "/" else BeforeLastSlash(s)
  }

  /** `path.basename` of a path without a trailing '/'. */
  function Basename(s: string): string
  {
    AfterLastSlash(s)
  }

  /** A path with a '/' is its directory part, a '/' and its last component. */
  lemma {:induction false} SlashSplits(s: string)
    requires '/' in s
    ensures BeforeLastSlash(s) + "/" + AfterLastSlash(s) == s
    decreases |s|
  {
    var n := |s| - 1;
    if s[n] == '/' {
      assert s == s[..n] + [s[n]];
    } else {
      assert '/' in s[..n] by {
        var k :| 0 <= k < |s| && s[k] == '/';
        assert k < n && s[..n][k] == '/';
      }
      SlashSplits(s[..n]);
      assert s == s[..n] + [s[n]];
    }
  }

  /** The last component of `a/b` is that of `b`, and its directory part extends `a`. */
  lemma {:induction false} SlashJoined(a: string, b: string)
    ensures AfterLastSlash(a + "/" + b) == AfterLastSlash(b)
    ensures |BeforeLastSlash(a + "/" + b)| >= |a|
    decreases |b|
  {
    var s := a + "/" + b;
    if b == [] {
      assert s[|s| - 1] == '/' && s[..|s| - 1] == a;
    } else {
      var n := |b| - 1;
      assert s[|s| - 1] == b[n];
      assert s[..|s| - 1] == a + "/" + b[..n];
      if b[n] != '/' {
        SlashJoined(a, b[..n]);
      }
    }
  }

  /** Where `extractEntryTo(entry, path.dirname(target), false, true)` writes a file entry:
      its base name in the directory of its computed target. */
  function FileTarget(resDir: string, entryName: string): string
  {
    PathJoin(Dirname(EntryTarget(resDir, entryName)), Basename(entryName))
  }

  /** Where an entry ends up: a directory at its computed target, a file as extracted. */
  function Placed(resDir: string, e: Entry): string
  {
    if e.isDirectory then EntryTarget(resDir, e.entryName) else FileTarget(resDir, e.entryName)
  }

  /** A file below the archive's top folder (a name not ending in '/') lands at its
      computed target. */
  lemma NestedFileAtTarget(resDir: string, top: string, rest: string)
    requires resDir != "" && '/' !in top && rest != "" && rest[|rest| - 1] != '/'
    ensures FileTarget(resDir, top + "/" + rest) == EntryTarget(resDir, top + "/" + rest) == resDir + "/" + rest
  {
    EntryTargetDropsTop(resDir, top, rest);
    assert PathJoin(resDir, rest) == resDir + "/" + rest;
    var t := resDir + "/" + rest;
    assert '/' in t by { assert t[|resDir|] == '/'; }
    SlashSplits(t);
    SlashJoined(resDir, rest);
    SlashJoined(top, rest);
    assert AfterLastSlash(rest) != "";
    assert Dirname(t) == BeforeLastSlash(t);
  }

  /** A file at the archive's top level is written into the parent of the resource
      directory, which is outside it. */
  lemma TopLevelFileOutside(layout: Layout, name: string)
    requires '/' !in name && name != "" && name != "resources"
    ensures FileTarget(layout.ResDir(), name) == layout.cwd + "/src-tauri/" + name
    ensures !Under(FileTarget(layout.ResDir(), name), layout.ResDir())
  {
    var up := layout.cwd + "/src-tauri";
    TopLevelFileTarget(layout.ResDir(), name);
    ResDirParent(layout);
    assert up + "/" + name == layout.cwd + "/src-tauri/" + name;
    SiblingNotUnder(layout.cwd, name);
  }

  /** A name without '/' has no part below the top folder: the file goes next to the
      resource directory. */
  lemma TopLevelFileTarget(resDir: string, name: string)
    requires '/' !in name && name != ""
    ensures FileTarget(resDir, name) == Dirname(resDir) + "/" + name
  {
    Strings.SplitNoSep(name, '/');
    assert EntryTarget(resDir, name) == resDir;
    AfterLastSlashNoSlash(name);
  }

  /** The resource directory's parent is `src-tauri`. */
  lemma ResDirParent(layout: Layout)
    ensures Dirname(layout.ResDir()) == layout.cwd + "/src-tauri"
  {
    var up := layout.cwd + "/src-tauri";
    assert layout.ResDir() == up + "/" + "resources";
    ParentOf(up, "resources");
  }

  /** The directory part of `up/name` is `up`. */
  lemma ParentOf(up: string, name: string)
    requires up != "" && '/' !in name
    ensures Dirname(up + "/" + name) == up
  {
    var s := up + "/" + name;
    SlashJoined(up, name);
    AfterLastSlashNoSlash(name);
    SlashSplits(s);
    var before := BeforeLastSlash(s);
    assert |before| == |up|;
    assert before == s[..|before|];
    assert up == s[..|up|];
  }

  /** A sibling of `resources` lies outside it. */
  lemma SiblingNotUnder(cwd: string, name: string)
    requires '/' !in name && name != "resources"
    ensures !Under(cwd + "/src-tauri/" + name, cwd + "/src-tauri/resources")
  {
    var f := cwd + "/src-tauri/" + name;
    var resDir := cwd + "/src-tauri/resources";
    var c := |cwd| + 11;
    assert f[c..] == name;
    assert resDir[c..] == "resources";
    if |f| > |resDir| {
      assert f[|resDir|] == name[|resDir| - c] != '/';
      assert f[..|resDir| + 1][|resDir|] == f[|resDir|];
    }
  }

  /** A path without '/' is its own last component. */
  lemma {:induction false} AfterLastSlashNoSlash(s: string)
    requires '/' !in s
    ensures AfterLastSlash(s) == s
    decreases |s|
  {
    if s != [] {
      var n := |s| - 1;
      assert s[n] != '/';
      AfterLastSlashNoSlash(s[..n]);
      assert s == s[..n] + [s[n]];
    }
  }

  /** The script's directories under the working directory. */
  datatype Layout = Layout(cwd: string)
  {
    function TempDir(): string { cwd + "/node_modules/.nvmd" }
    function ResDir(): string { cwd + "/src-tauri/resources" }
  }

  /** A zip entry. */
  datatype Entry = Entry(entryName: string, isDirectory: bool)

  /** What the network and the archive do: whether the download fails, whether the zip
      cannot be opened, its entries, and the entries whose extraction throws. */
  datatype Remote = Remote(downloadError: Option<string>, zipError: Option<string>, entries: seq<Entry>,
                           extractErrors: map<string, string>)

  /** A path at or below a directory. */
  predicate Under(path: string, dir: string)
  {
    path == dir || (|path| > |dir| && path[..|dir| + 1] == dir + "/")
  }

  /** `fs.remove(dir)`: the directory and everything below it go. */
  function Removed(paths: set<string>, dir: string): (r: set<string>)
    ensures forall p :: p in r <==> p in paths && !Under(p, dir)
  {
    set p | p in paths && !Under(p, dir)
  }

  /** The `forEach` over the entries: directories are made, files extracted; a throwing
      extraction ends the loop with its error. */
  function Extract(paths: set<string>, resDir: string, entries: seq<Entry>, errors: map<string, string>): (r: (Status, set<string>))
    ensures paths <= r.1
    decreases |entries|
  {
    if entries == [] then (Done, paths)
    else
      var e := entries[0];
      if !e.isDirectory && e.entryName in errors then (Failed(errors[e.entryName]), paths)
      else Extract(paths + {Placed(resDir, e)}, resDir, entries[1..], errors)
  }

  /** An extraction that goes through places every entry. */
  lemma {:induction false} ExtractPlacesAll(paths: set<string>, resDir: string, entries: seq<Entry>, errors: map<string, string>)
    requires Extract(paths, resDir, entries, errors).0 == Done
    ensures forall k :: 0 <= k < |entries| ==> Placed(resDir, entries[k]) in Extract(paths, resDir, entries, errors).1
    decreases |entries|
  {
    if entries != [] {
      var next := paths + {Placed(resDir, entries[0])};
      ExtractPlacesAll(next, resDir, entries[1..], errors);
      forall k | 1 <= k < |entries|
        ensures Placed(resDir, entries[k]) in Extract(paths, resDir, entries, errors).1
      {
        assert entries[1..][k - 1] == entries[k];
      }
    }
  }

  /** `run()`: the status and the paths that exist afterwards. The resource directory is
      made; an existing shim is kept unless forced; otherwise the zip is downloaded into
      the temporary directory when not already there and unpacked; on an error the shim
      is removed and the error rethrown; the temporary directory is always removed. */
  function Run(paths: set<string>, layout: Layout, platform: Option<string>, asset: string, forced: bool,
               remote: Remote): (r: (Status, set<string>))
  {
    var resDir := layout.ResDir();
    var target := PathJoin(resDir, ShimName(platform));
    var made := paths + {resDir};
    if !forced && target in made then (Done, made)
    else
      var tempDir := layout.TempDir();
      var tempZip := tempDir + "/" + asset + ".zip";
      var withTemp := made + {tempDir};
      var attempt :=
        if tempZip !in withTemp && remote.downloadError.Some? then (Failed(remote.downloadError.value), withTemp)
        else
          var zipped := withTemp + {tempZip};
          if remote.zipError.Some? then (Failed(remote.zipError.value), zipped)
          else Extract(zipped, resDir, remote.entries, remote.extractErrors);
      var caught := if attempt.0.Failed? then attempt.1 - {target} else attempt.1;
      (attempt.0, Removed(caught, tempDir))
  }

  /** The file system the script works on. */
  class Disk {
    var paths: set<string>

    constructor(paths: set<string>)
      ensures this.paths == paths
    {
      this.paths := paths;
    }

    /** The `forEach` over the zip's entries. */
    method ExtractEntries(resDir: string, entries: seq<Entry>, errors: map<string, string>) returns (r: Status)
      modifies this
      ensures (r, paths) == Extract(old(paths), resDir, entries, errors)
    {
      var i := 0;
      assert entries[0..] == entries;
      while i < |entries|
        invariant 0 <= i <= |entries|
        invariant Extract(paths, resDir, entries[i..], errors) == Extract(old(paths), resDir, entries, errors)
      {
        assert entries[i..][1..] == entries[i + 1..];
        var entry := entries[i];
        if !entry.isDirectory && entry.entryName in errors {
          return Failed(errors[entry.entryName]);
        }
        paths := paths + {Placed(resDir, entry)};
        i := i + 1;
      }
      assert entries[i..] == [];
      return Done;
    }

    /** `run()`. */
    method RunScript(layout: Layout, platform: Option<string>, asset: string, forced: bool, remote: Remote)
      returns (r: Status)
      modifies this
      ensures (r, paths) == Run(old(paths), layout, platform, asset, forced, remote)
    {
      var resDir := layout.ResDir();
      var target := PathJoin(resDir, ShimName(platform));
      paths := paths + {resDir};
      if !forced && target in paths {
        return Done;
      }
      var tempDir := layout.TempDir();
      var tempZip := tempDir + "/" + asset + ".zip";
      paths := paths + {tempDir};
      if tempZip !in paths && remote.downloadError.Some? {
        r := Failed(remote.downloadError.value);
      } else {
        paths := paths + {tempZip};
        if remote.zipError.Some? {
          r := Failed(remote.zipError.value);
        } else {
          r := ExtractEntries(resDir, remote.entries, remote.extractErrors);
        }
      }
      if r.Failed? {
        paths := paths - {target};
      }
      paths := Removed(paths, tempDir);
    }
  }

  /** The whole script: the supported-check first, which throws before any file is
      touched, then `run()`. */
  function Script(argv: seq<string>, hostPlatform: string, hostArch: string, paths: set<string>, layout: Layout,
                  remote: Remote): (r: (Status, set<string>))
    ensures var (platform, arch) := Selected(argv, hostPlatform, hostArch);
      AssetName(platform, arch).Err? ==> r == (Failed(AssetName(platform, arch).error), paths)
  {
    var (platform, arch) := Selected(argv, hostPlatform, hostArch);
    var asset := AssetName(platform, arch);
    if asset.Err? then (Failed(asset.error), paths)
    else Run(paths, layout, platform, asset.value, Forced(argv), remote)
  }

  /** Whatever happens, nothing is left under the temporary directory once the download
      is attempted, and a failure leaves no shim behind. */
  lemma RunCleansUp(paths: set<string>, layout: Layout, platform: Option<string>, asset: string, forced: bool,
                    remote: Remote)
    requires forced || PathJoin(layout.ResDir(), ShimName(platform)) !in paths + {layout.ResDir()}
    ensures var (s, after) := Run(paths, layout, platform, asset, forced, remote);
      && (forall p :: p in after ==> !Under(p, layout.TempDir()))
      && (s.Failed? ==> PathJoin(layout.ResDir(), ShimName(platform)) !in after)
  {
  }

  /** Without "--force" an existing shim is kept and nothing is downloaded. */
  lemma ExistingShimKept(paths: set<string>, layout: Layout, platform: Option<string>, asset: string, remote: Remote)
    requires PathJoin(layout.ResDir(), ShimName(platform)) in paths
    ensures Run(paths, layout, platform, asset, false, remote) == (Done, paths + {layout.ResDir()})
  {
  }

  /** A run that goes through places every entry of the archive, except what lies under
      the temporary directory, and keeps every path that existed outside it. */
  lemma RunPlacesEntries(paths: set<string>, layout: Layout, platform: Option<string>, asset: string, forced: bool,
                         remote: Remote)
    requires forced || PathJoin(layout.ResDir(), ShimName(platform)) !in paths + {layout.ResDir()}
    requires Run(paths, layout, platform, asset, forced, remote).0 == Done
    ensures forall k :: 0 <= k < |remote.entries| && !Under(Placed(layout.ResDir(), remote.entries[k]), layout.TempDir()) ==>
      Placed(layout.ResDir(), remote.entries[k]) in Run(paths, layout, platform, asset, forced, remote).1
    ensures forall p :: p in paths && !Under(p, layout.TempDir()) ==> p in Run(paths, layout, platform, asset, forced, remote).1
  {
    var tempDir := layout.TempDir();
    var tempZip := tempDir + "/" + asset + ".zip";
    var zipped := paths + {layout.ResDir()} + {tempDir} + {tempZip};
    ExtractPlacesAll(zipped, layout.ResDir(), remote.entries, remote.extractErrors);
  }

  // ---------------------------------------------------------------- the download request

  /** The proxy named by the environment: the first of `HTTP_PROXY`, `http_proxy`,
      `HTTPS_PROXY`, `https_proxy` that is set and not empty. */
  function ProxyFromEnv(env: map<string, string>): (r: Option<string>)
    ensures r.Some? ==> r.value != ""
    ensures r.None? <==> forall v :: v in ["HTTP_PROXY", "http_proxy", "HTTPS_PROXY", "https_proxy"] ==> v !in env || env[v] == ""
  {
    if "HTTP_PROXY" in env && env["HTTP_PROXY"] != "" then Some(env["HTTP_PROXY"])
    else if "http_proxy" in env && env["http_proxy"] != "" then Some(env["http_proxy"])
    else if "HTTPS_PROXY" in env && env["HTTPS_PROXY"] != "" then Some(env["HTTPS_PROXY"])
    else if "https_proxy" in env && env["https_proxy"] != "" then Some(env["https_proxy"])
    else None
  }

  /** A GET of the asset with an octet-stream content type, through a proxy agent or not. */
  datatype Request = Request(url: string, agent: Option<string>)

  /** `downloadFile` as written: the proxy agent is put on an `options` object that is
      never passed to `fetch`, so the request goes direct. */
  function RequestAsWritten(url: string, env: map<string, string>): (r: Request)
    ensures r.url == url && r.agent.None?
  {
    var options := ProxyFromEnv(env);
    Request(url, None)
  }

  /** A proxy in the environment is ignored. */
  lemma ProxyIgnored()
    ensures ProxyFromEnv(map["HTTP_PROXY" := "http://127.0.0.1:7890"]).Some?
    ensures RequestAsWritten(DownloadUrl("Linux-x64"), map["HTTP_PROXY" := "http://127.0.0.1:7890"]).agent.None?
  {
  }

  /** `downloadFile` as intended: the request goes through the environment's proxy when
      one is set. */
  function DownloadRequest(url: string, env: map<string, string>): (r: Request)
    ensures r.url == url && r.agent == ProxyFromEnv(env)
  {
    Request(url, ProxyFromEnv(env))
  }

  /** The intended request uses a proxy exactly when the environment names one, and the
      upper-case `HTTP_PROXY` wins. */
  lemma DownloadRequestProxied(url: string, env: map<string, string>)
    ensures DownloadRequest(url, env).agent.Some? <==>
      exists v :: v in ["HTTP_PROXY", "http_proxy", "HTTPS_PROXY", "https_proxy"] && v in env && env[v] != ""
    ensures "HTTP_PROXY" in env && env["HTTP_PROXY"] != "" ==> DownloadRequest(url, env).agent == Some(env["HTTP_PROXY"])
  {
  }
}
