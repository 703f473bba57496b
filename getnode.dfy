/** The Electron back end's `get-node` library (`src/main/deps/get-node`): choosing the
    binary's architecture, checking the version, resolving the options, choosing how
    the Windows or Unix binary is fetched, verifying its checksum and installing it
    through a temporary directory. The network, unzipping and untarring are inputs;
    the disk is the set of file paths that exist, a path being a sequence of names. */
module GetNode {
  import opened Wrappers
  import Strings
  import opened Semver
  import Compare

  type Path = seq<string>

  // ---------------------------------------------------------------------------------
  // arch.ts

  /** The keys of `PLATFORMS`, in their declared order. */
  const ArchKeys: seq<string> := ["arm", "arm64", "ia32", "ppc", "ppc64", "s390", "s390x", "x32", "x64"]

  /** `PLATFORMS[arch]`: the architecture as it appears in Node.js file names. */
  function Platforms(arch: string): (r: Option<string>)
    ensures r.Some? <==> arch in ArchKeys
  {
    match arch
    case "arm" => Some("armv7l")
    case "arm64" => Some("arm64")
    case "ia32" => Some("x64")
    case "ppc" => Some("ppc64le")
    case "ppc64" => Some("ppc64le")
    case "s390" => Some("s390x")
    case "s390x" => Some("s390x")
    case "x32" => Some("x86")
    case "x64" => Some("x64")
    case _ => None
  }

  function InvalidArch(arch: string): string
  {
    "Option \"arch\" must not be " + arch + " but one of: " + Strings.Join(ArchKeys, ", ")
  }

  /** `validateArch`: a key of the table passes; anything else throws a TypeError naming
      every accepted key. */
  function ValidateArch(arch: string): (r: Status)
    ensures r.Done? <==> arch in ArchKeys
    ensures r.Failed? ==> r.error == InvalidArch(arch)
  {
    if Platforms(arch).Some? then Done else Failed(InvalidArch(arch))
  }

  /** `getArch`: always "ppc64" on AIX, otherwise the table entry (`undefined`, here None,
      for an architecture the table lacks). */
  function GetArch(platform: string, arch: string): (r: Option<string>)
    ensures platform == "aix" ==> r == Some("ppc64")
    ensures platform != "aix" ==> r == Platforms(arch)
  {
    if platform == "aix" then Some("ppc64") else Platforms(arch)
  }

  /** The table, entry by entry; "mips" and "mipsel", which the `Arch` type names, are
      rejected. */
  lemma ArchTable(platform: string)
    requires platform != "aix"
    ensures GetArch(platform, "arm") == Some("armv7l") && GetArch(platform, "ia32") == Some("x64")
    ensures GetArch(platform, "x32") == Some("x86")
    ensures GetArch(platform, "ppc") == Some("ppc64le") && GetArch(platform, "ppc64") == Some("ppc64le")
    ensures GetArch(platform, "s390") == Some("s390x") && GetArch(platform, "s390x") == Some("s390x")
    ensures GetArch(platform, "arm64") == Some("arm64") && GetArch(platform, "x64") == Some("x64")
    ensures ValidateArch("mips").Failed? && ValidateArch("mipsel").Failed?
  {
    RenamedArchs(platform);
    KeptArchs(platform);
    MipsRejected();
  }

  lemma RenamedArchs(platform: string)
    requires platform != "aix"
    ensures GetArch(platform, "arm") == Some("armv7l") && GetArch(platform, "ia32") == Some("x64")
    ensures GetArch(platform, "x32") == Some("x86")
    ensures GetArch(platform, "ppc") == Some("ppc64le") && GetArch(platform, "ppc64") == Some("ppc64le")
    ensures GetArch(platform, "s390") == Some("s390x")
  {
  }

  lemma KeptArchs(platform: string)
    requires platform != "aix"
    ensures GetArch(platform, "s390x") == Some("s390x")
    ensures GetArch(platform, "arm64") == Some("arm64") && GetArch(platform, "x64") == Some("x64")
  {
  }

  lemma MipsRejected()
    ensures ValidateArch("mips").Failed? && ValidateArch("mipsel").Failed?
  {
    assert "mips" !in ArchKeys;
    assert "mipsel" !in ArchKeys;
  }

  // ---------------------------------------------------------------------------------
  // version.ts

  const DefaultVersionRange := "latest"
  const MinimumVersion := Version(0, 8, 6)

  function UnsupportedVersion(version: string): string
  {
    "Unsupported Node.js version: " + version + ". Must be >= 0.8.6."
  }

  /** `checkVersion`: `semver.lt(version, "0.8.6")` throws on an invalid version, and a
      version strictly below the minimum is unsupported. */
  function CheckVersion(version: string): (r: Status)
    ensures r.Done? <==> Compare.JsParse(version).Some? && Gte(Compare.JsParse(version).value, MinimumVersion)
    ensures Compare.JsParse(version).None? ==> r == Failed("Invalid Version: " + version)
    ensures Compare.JsParse(version).Some? && Lt(Compare.JsParse(version).value, MinimumVersion) ==>
      r == Failed(UnsupportedVersion(version))
  {
    match Compare.JsParse(version)
    case None => Failed("Invalid Version: " + version)
    case Some(v) => if Lt(v, MinimumVersion) then Failed(UnsupportedVersion(version)) else Done
  }

  /** The minimum itself is accepted; the version just below it is not. */
  lemma CheckVersionBoundary()
    ensures CheckVersion("0.8.6").Done?
    ensures CheckVersion("0.8.5") == Failed(UnsupportedVersion("0.8.5"))
  {
    ParseShow(Version(0, 8, 6));
    ParseShow(Version(0, 8, 5));
    assert Show(Version(0, 8, 6)) == "0.8.6";
    assert Show(Version(0, 8, 5)) == "0.8.5";
  }

  // ---------------------------------------------------------------------------------
  // options.ts

  const DefaultMirror := "https://nodejs.org/dist"

  /** The proxy record (`Nvmd.Proxy`). */
  datatype Proxy = Proxy(enabled: bool, ip: string, port: string)

  /** The options object, each field perhaps undefined; the signal and the progress
      callback are opaque and only passed on. */
  datatype Options = Options(
    output: Option<string>,
    arch: Option<string>,
    mirror: Option<string>,
    proxy: Option<Proxy>,
    signal: Option<nat>,
    onProgress: Option<nat>)

  /** The argument of `getOpts`: a plain object, or some other value shown as text. */
  datatype OptionsArg = Plain(opts: Options) | NotPlain(shown: string)

  datatype FetchOpts = FetchOpts(mirror: string, signal: Option<nat>, proxy: Option<Proxy>)
  datatype Resolved = Resolved(output: string, arch: string, fetchOpts: FetchOpts, onProgress: Option<nat>)

  /** `getOpts`: a non-plain object throws; each missing field takes its default (the
      install directory, the process's architecture, the nodejs.org mirror, no proxy); the
      architecture is validated. */
  function GetOpts(arg: OptionsArg, installDir: string, processArch: string): (r: Result<Resolved>)
    ensures arg.NotPlain? ==> r == Err("Options must be a plain object: " + arg.shown)
    ensures arg.Plain? ==> var o := arg.opts; var arch := o.arch.UnwrapOr(processArch);
      && (r.Ok? <==> arch in ArchKeys)
      && (r.Err? ==> r.error == InvalidArch(arch))
      && (r.Ok? ==> r.value == Resolved(o.output.UnwrapOr(installDir), arch,
                                        FetchOpts(o.mirror.UnwrapOr(DefaultMirror), o.signal, o.proxy), o.onProgress))
  {
    match arg
    case NotPlain(shown) => Err("Options must be a plain object: " + shown)
    case Plain(o) =>
      var output := o.output.UnwrapOr(installDir);
      var arch := o.arch.UnwrapOr(processArch);
      var mirror := o.mirror.UnwrapOr(DefaultMirror);
      var valid := ValidateArch(arch);
      if valid.Failed? then Err(valid.error)
      else Ok(Resolved(output, arch, FetchOpts(mirror, o.signal, o.proxy), o.onProgress))
  }

  /** An empty options object gives every default. */
  lemma GetOptsDefaults(installDir: string, processArch: string)
    requires processArch in ArchKeys
    ensures GetOpts(Plain(Options(None, None, None, None, None, None)), installDir, processArch)
      == Ok(Resolved(installDir, processArch, FetchOpts(DefaultMirror, None, None), None))
  {
  }

  // ---------------------------------------------------------------------------------
  // archive/zip.ts and archive/raw.ts

  /** `shouldUseZip`: `semver.satisfies(version, "^4.5.0 || >=6.2.1")`, false for an
      invalid version. */
  predicate ShouldUseZip(version: string)
  {
    match Compare.JsParse(version)
    case None => false
    case Some(v) => (Gte(v, Version(4, 5, 0)) && Lt(v, Version(5, 0, 0))) || Gte(v, Version(6, 2, 1))
  }

  /** The zip archive covers 4.5.0 to 5.0.0 (excluded) and 6.2.1 on; every 5.x, 6.0.0 to
      6.2.0 and everything below 4.5.0 are fetched raw. */
  lemma ShouldUseZipRanges(version: string, v: Version)
    requires Compare.JsParse(version) == Some(v)
    ensures ShouldUseZip(version) <==>
      ((v.major == 4 && v.minor >= 5) || v.major > 6 || (v.major == 6 && (v.minor > 2 || (v.minor == 2 && v.patch >= 1))))
    ensures v.major == 5 ==> !ShouldUseZip(version)
    ensures v.major == 6 && (v.minor < 2 || (v.minor == 2 && v.patch == 0)) ==> !ShouldUseZip(version)
    ensures Lt(v, Version(4, 5, 0)) ==> !ShouldUseZip(version)
  {
  }

  /** `getZipFilepath`. */
  function ZipFilepath(version: string, arch: string): string
  {
    "node-v" + version + "-win-" + arch
  }

  /** `getFilepath` of the raw download: `semver.gte` throws on an invalid version;
      from 4.0.0 the binary sits under `win-<arch>`, before that under `x64` for x64
      and at the top otherwise. */
  function RawFilepath(version: string, arch: string): (r: Result<string>)
    ensures Compare.JsParse(version).None? ==> r == Err("Invalid Version: " + version)
    ensures Compare.JsParse(version).Some? && Gte(Compare.JsParse(version).value, Version(4, 0, 0)) ==>
      r == Ok("win-" + arch + "/node.exe")
    ensures Compare.JsParse(version).Some? && Lt(Compare.JsParse(version).value, Version(4, 0, 0)) ==>
      r == Ok(if arch == "x64" then "x64/node.exe" else "node.exe")
  {
    match Compare.JsParse(version)
    case None => Err("Invalid Version: " + version)
    case Some(v) =>
      if Gte(v, Version(4, 0, 0)) then Ok("win-" + arch + "/node.exe")
      else if arch == "x64" then Ok("x64/node.exe")
      else Ok("node.exe")
  }

  /** The `.tar.gz` archive's top directory. */
  function GzName(version: string, platform: string, arch: string): string
  {
    "node-v" + version + "-" + platform + "-" + arch
  }

  // ---------------------------------------------------------------------------------
  // archive/index.ts

  const SupportedUnix := {"linux", "darwin", "aix", "sunos"}

  /** How `downloadRuntime` fetches the binary. */
  datatype Route = ZipRoute | RawRoute | GzRoute

  /** The dispatch: Windows takes the zip archive when one exists and the raw binary
      otherwise; the supported Unix systems take the gzip archive; any other platform
      throws. */
  function RouteFor(platform: string, version: string): (r: Result<Route>)
    ensures platform == "win32" ==> r == Ok(if ShouldUseZip(version) then ZipRoute else RawRoute)
    ensures platform != "win32" && platform in SupportedUnix ==> r == Ok(GzRoute)
    ensures platform != "win32" && platform !in SupportedUnix ==> r == Err("Unsupported platform: " + platform)
  {
    if platform == "win32" then Ok(if ShouldUseZip(version) then ZipRoute else RawRoute)
    else if platform in SupportedUnix then Ok(GzRoute)
    else Err("Unsupported platform: " + platform)
  }

  /** The path a route asks the mirror for, below `v<version>/`. */
  function FetchedFile(route: Route, version: string, platform: string, arch: string): Result<string>
  {
    match route
    case ZipRoute => Ok(ZipFilepath(version, arch) + ".zip")
    case RawRoute => RawFilepath(version, arch)
    case GzRoute => Ok(GzName(version, platform, arch) + ".tar.gz")
  }

  // ---------------------------------------------------------------------------------
  // checksum.ts

  /** V8's message for destructuring `undefined`, which is what a missing checksum line
      leads to. */
  const NotIterable := "undefined is not iterable (cannot read property Symbol(Symbol.iterator))"

  /** `parseChecksumLine`: trimmed, then split on runs of white space. */
  function ParseChecksumLine(line: string): seq<string>
  {
    Strings.SplitSpaces(Strings.Trim(line))
  }

  /** Whether a checksum line is the one for `filepath`. */
  predicate LineFor(line: string, filepath: string)
  {
    |ParseChecksumLine(line)| > 1 && ParseChecksumLine(line)[1] == filepath
  }

  /** The index of the first line for `filepath`, or the number of lines. */
  function FirstLineFor(lines: seq<string>, filepath: string): (k: nat)
    ensures k <= |lines|
    ensures k < |lines| ==> LineFor(lines[k], filepath)
    ensures forall i :: 0 <= i < k ==> !LineFor(lines[i], filepath)
    decreases |lines|
  {
    if lines == [] then 0
    else if LineFor(lines[0], filepath) then 0
    else 1 + FirstLineFor(lines[1..], filepath)
  }

  /** `getExpectedChecksum`: the first field of the first line whose second field is the
      file, or None when no line names it. */
  function ExpectedChecksum(text: string, filepath: string): (r: Option<string>)
    ensures var lines := Strings.Split(text, '\n'); var k := FirstLineFor(lines, filepath);
      && (r.None? <==> k == |lines|)
      && (r.Some? ==> r.value == ParseChecksumLine(lines[k])[0])
  {
    var lines := Strings.Split(text, '\n');
    var k := FirstLineFor(lines, filepath);
    if k == |lines| then None else Some(ParseChecksumLine(lines[k])[0])
  }

  /** `getChecksumLines`: the test variable, when set, replaces the fetched text. */
  function ChecksumLines(testChecksums: Option<string>, fetched: Result<string>): Result<string>
  {
    if testChecksums.Some? then Ok(testChecksums.value) else fetched
  }

  function ChecksumFailed(version: string, message: string): string
  {
    "Could not download Node.js " + version + " checksum: " + message
  }

  function ChecksumMismatch(version: string): string
  {
    "Could not download Node.js " + version + ": checksum did not match"
  }

  /** `checkChecksum`: never throws; every failure becomes the returned text. */
  function CheckChecksum(version: string, filepath: string, lines: Result<string>, actual: Result<string>)
    : (r: Option<string>)
    ensures r.None? <==> lines.Ok? && actual.Ok? && ExpectedChecksum(lines.value, filepath) == Some(actual.value)
    ensures lines.Err? ==> r == Some(ChecksumFailed(version, lines.error))
    ensures lines.Ok? && ExpectedChecksum(lines.value, filepath).None? ==> r == Some(ChecksumFailed(version, NotIterable))
    ensures lines.Ok? && ExpectedChecksum(lines.value, filepath).Some? && actual.Ok? && ExpectedChecksum(lines.value, filepath) != Some(actual.value) ==>
      r == Some(ChecksumMismatch(version))
  {
    if lines.Err? then Some(ChecksumFailed(version, lines.error))
    else
      var expected := ExpectedChecksum(lines.value, filepath);
      if expected.None? then Some(ChecksumFailed(version, NotIterable))
      else if actual.Err? then Some(ChecksumFailed(version, actual.error))
      else if actual.value != expected.value then Some(ChecksumMismatch(version))
      else None
  }

  /** A checksum file in the mirror's format yields the checksum listed for the file. */
  lemma ChecksumListed(sum: string, filepath: string, rest: string)
    requires sum != [] && forall i :: 0 <= i < |sum| ==> !Strings.IsSpace(sum[i])
    requires filepath != [] && forall i :: 0 <= i < |filepath| ==> !Strings.IsSpace(filepath[i])
    ensures ExpectedChecksum(sum + "  " + filepath + "\n" + rest, filepath) == Some(sum)
  {
    var line := sum + "  " + filepath;
    var text := line + "\n" + rest;
    assert sum + "  " + filepath + "\n" + rest == text;
    var lines := Strings.Split(text, '\n');
    assert lines[0] == line by {
      NoNewline(sum, filepath);
      SplitLine(line, rest);
    }
    assert ParseChecksumLine(line) == [sum, filepath] by {
      TrimTwoFields(sum, filepath);
      SplitTwoFields(sum, filepath);
    }
    ExpectedFromFirst(text, filepath);
  }

  /** A first line naming the file supplies the checksum. */
  lemma ExpectedFromFirst(text: string, filepath: string)
    requires LineFor(Strings.Split(text, '\n')[0], filepath)
    ensures ExpectedChecksum(text, filepath) == Some(ParseChecksumLine(Strings.Split(text, '\n')[0])[0])
  {
    var lines := Strings.Split(text, '\n');
    assert FirstLineFor(lines, filepath) == 0;
  }

  lemma NoNewline(sum: string, filepath: string)
    requires forall i :: 0 <= i < |sum| ==> !Strings.IsSpace(sum[i])
    requires forall i :: 0 <= i < |filepath| ==> !Strings.IsSpace(filepath[i])
    ensures '\n' !in sum + "  " + filepath
  {
    assert Strings.IsSpace('\n');
    var line := sum + "  " + filepath;
    forall i | 0 <= i < |line|
      ensures line[i] != '\n'
    {
      if i < |sum| {
        assert line[i] == sum[i];
      } else if i >= |sum| + 2 {
        assert line[i] == filepath[i - |sum| - 2];
      }
    }
  }

  /** The first line of `line + "\n" + rest` is `line`. */
  lemma {:induction false} SplitLine(line: string, rest: string)
    requires '\n' !in line
    ensures Strings.Split(line + "\n" + rest, '\n')[0] == line
    decreases |line|
  {
    if line == [] {
      assert line + "\n" + rest == ['\n'] + rest;
    } else {
      SplitLine(line[1..], rest);
      assert (line + "\n" + rest)[1..] == line[1..] + "\n" + rest;
    }
  }

  lemma TrimTwoFields(sum: string, filepath: string)
    requires sum != [] && forall i :: 0 <= i < |sum| ==> !Strings.IsSpace(sum[i])
    requires filepath != [] && forall i :: 0 <= i < |filepath| ==> !Strings.IsSpace(filepath[i])
    ensures Strings.Trim(sum + "  " + filepath) == sum + "  " + filepath
  {
    var line := sum + "  " + filepath;
    assert line[|line| - 1] == filepath[|filepath| - 1];
    assert line[0] == sum[0];
    Strings.TrimNoSpace(line);
  }

  /** Two space-free fields separated by two spaces split into exactly those fields. */
  lemma {:induction false} SplitTwoFields(sum: string, filepath: string)
    requires forall i :: 0 <= i < |sum| ==> !Strings.IsSpace(sum[i])
    requires filepath != [] && forall i :: 0 <= i < |filepath| ==> !Strings.IsSpace(filepath[i])
    ensures Strings.SplitSpaces(sum + "  " + filepath) == [sum, filepath]
    decreases |sum|
  {
    if sum == [] {
      assert ("  " + filepath)[1..] == " " + filepath;
      assert (" " + filepath)[1..] == filepath;
      NoSpaceSplit(filepath);
    } else {
      SplitTwoFields(sum[1..], filepath);
      var line := sum + "  " + filepath;
      assert line[1..] == sum[1..] + "  " + filepath;
      assert line[0] == sum[0] && !Strings.IsSpace(line[0]);
      assert [sum[0]] + sum[1..] == sum;
    }
  }

  lemma {:induction false} NoSpaceSplit(s: string)
    requires forall i :: 0 <= i < |s| ==> !Strings.IsSpace(s[i])
    ensures Strings.SplitSpaces(s) == [s]
    decreases |s|
  {
    if s != [] {
      NoSpaceSplit(s[1..]);
      assert [s[0]] + s[1..] == s;
    }
  }

  // ---------------------------------------------------------------------------------
  // download.ts

  /** `NODE_FILENAME`: where the binary sits inside a version's directory. */
  function NodeFilename(platform: string): Path
  {
    if platform == "win32" then ["node.exe"] else ["bin", "node"]
  }

  /** `getDownloadError`: a DNS failure names the mirror, a 404 names the missing
      binaries, anything else keeps its message. The DNS test comes first. */
  function GetDownloadError(message: string, version: string, platform: string, arch: string, mirror: string)
    : (r: string)
    ensures Strings.Contains(message, "getaddrinfo") ==> r == "Could not connect to " + mirror
    ensures !Strings.Contains(message, "getaddrinfo") && Strings.Contains(message, "404") ==>
      r == "No Node.js binaries available for " + version + " on " + platform + " " + arch
    ensures !Strings.Contains(message, "getaddrinfo") && !Strings.Contains(message, "404") ==>
      r == "Could not download Node.js " + version + ": " + message
  {
    if Strings.Contains(message, "getaddrinfo") then "Could not connect to " + mirror
    else if Strings.Contains(message, "404") then
      "No Node.js binaries available for " + version + " on " + platform + " " + arch
    else "Could not download Node.js " + version + ": " + message
  }

  /** A message naming both a DNS failure and a 404 is classified as the DNS failure. */
  lemma DownloadErrorOrder(pre: string, mid: string, post: string, version: string, platform: string, arch: string, mirror: string)
    ensures GetDownloadError(pre + "getaddrinfo" + mid + "404" + post, version, platform, arch, mirror)
      == "Could not connect to " + mirror
  {
    Strings.ContainsInside(pre, "getaddrinfo", mid + "404" + post);
    assert pre + "getaddrinfo" + (mid + "404" + post) == pre + "getaddrinfo" + mid + "404" + post;
  }

  /** What the network does: the request or the unpacking fails with a message, or the
      body arrives; the checksum file and the body's hash come separately. */
  datatype Network = Network(
    fetchError: Option<string>,
    checksumText: Result<string>,
    actualChecksum: Result<string>,
    testChecksums: Option<string>)

  /** Whether something exists at `p`: a file there or below it. */
  predicate Exists(files: set<Path>, p: Path)
  {
    exists f :: f in files && p <= f
  }

  /** Everything at or below `from` moves below `to`. */
  function MoveTree(files: set<Path>, from: Path, to: Path): set<Path>
  {
    (set f | f in files && !(from <= f)) + (set f | f in files && from <= f :: to + f[|from|..])
  }

  /** `rm(p, {force: true, recursive: true})`. */
  function RemoveTree(files: set<Path>, p: Path): (r: set<Path>)
    ensures r <= files
    ensures forall f :: f in r ==> !(p <= f)
    ensures forall f :: f in files && !(p <= f) ==> f in r
  {
    set f | f in files && !(p <= f)
  }

  const NoSuchFile := "no such file or directory"
  const DestExists := "dest already exists."

  /** `downloadRuntime` into `tmp`: the route's fetch and unpacking, then (for the
      archives) the rename of the archive's top directory to `tmp/<version>`. The binary
      of the raw route is written at `rawTarget`. The result is the checksum promise's
      outcome, or the error thrown. */
  function DownloadRuntime(platform: string, version: string, tmp: Path, arch: string, net: Network,
                           files: set<Path>, rawTarget: Path): (r: (Result<Option<string>>, set<Path>))
  {
    var route := RouteFor(platform, version);
    if route.Err? then (Err(route.error), files)
    else
      var fetched := FetchedFile(route.value, version, platform, arch);
      if fetched.Err? then (Err(fetched.error), files)
      else if net.fetchError.Some? then (Err(net.fetchError.value), files)
      else
        var checksum := CheckChecksum(version, fetched.value, ChecksumLines(net.testChecksums, net.checksumText), net.actualChecksum);
        match route.value
        case RawRoute => (Ok(checksum), files + {rawTarget})
        case ZipRoute =>
          var top := tmp + [ZipFilepath(version, arch)];
          var unpacked := files + {top + ["node.exe"]};
          (Ok(checksum), MoveTree(unpacked, top, tmp + [version]))
        case GzRoute =>
          var top := tmp + [GzName(version, platform, arch)];
          var unpacked := files + {top + ["bin", "node"]};
          (Ok(checksum), MoveTree(unpacked, top, tmp + [version]))
  }

  /** `download` with the raw binary written at `rawTarget`: nothing happens when the
      binary is already installed; otherwise the runtime is fetched into `tmp` (its
      errors classified by `getDownloadError`), a checksum error is thrown only after
      that succeeded, `tmp/<version>` is moved to `output/<version>`, and `tmp` is
      removed in every case. */
  function DownloadWith(platform: string, arch: string, output: Path, version: string, files: set<Path>,
                        tmp: Path, net: Network, mirror: string, rawTarget: Path): (r: (Result<Path>, set<Path>))
  {
    var archA := GetArch(platform, arch).UnwrapOr("undefined");
    var nodePath := output + [version];
    if Exists(files, nodePath + NodeFilename(platform)) then (Ok(nodePath), files)
    else
      var (runtime, unpacked) := DownloadRuntime(platform, version, tmp, archA, net, files, rawTarget);
      var (status, moved) :=
        if runtime.Err? then (Failed(GetDownloadError(runtime.error, version, platform, archA, mirror)), unpacked)
        else if runtime.value.Some? then (Failed(runtime.value.value), unpacked)
        else if !Exists(unpacked, tmp + [version]) then (Failed(NoSuchFile), unpacked)
        else if Exists(unpacked, nodePath) then (Failed(DestExists), unpacked)
        else (Done, MoveTree(unpacked, tmp + [version], nodePath));
      (if status.Done? then Ok(nodePath) else Err(status.error), RemoveTree(moved, tmp))
  }

  /** `download` as written: `writeNodeBinary(tmpFile)` puts the raw binary at the
      temporary path itself, where the later move of `tmp/<version>` cannot find it. */
  function DownloadAsWritten(platform: string, arch: string, output: Path, version: string, files: set<Path>,
                             tmp: Path, net: Network, mirror: string): (r: (Result<Path>, set<Path>))
    ensures Exists(files, output + [version] + NodeFilename(platform)) ==> r == (Ok(output + [version]), files)
    ensures r.0.Err? ==> r.1 == RemoveTree(files, tmp)
  {
    DownloadFailureKeeps(platform, arch, output, version, files, tmp, net, mirror, tmp);
    DownloadWith(platform, arch, output, version, files, tmp, net, mirror, tmp)
  }

  /** `download` with the raw binary written where the other routes leave theirs,
      `tmp/<version>/node.exe`. The download is atomic: a failure leaves everything
      outside `tmp` as it was, so no partial installation appears under `output`. */
  function Download(platform: string, arch: string, output: Path, version: string, files: set<Path>,
                    tmp: Path, net: Network, mirror: string): (r: (Result<Path>, set<Path>))
    ensures Exists(files, output + [version] + NodeFilename(platform)) ==> r == (Ok(output + [version]), files)
    ensures !Exists(files, output + [version] + NodeFilename(platform)) ==> forall f :: f in r.1 ==> !(tmp <= f)
    ensures r.0.Err? ==> r.1 == RemoveTree(files, tmp)
    ensures !Exists(files, tmp) && r.0.Err? ==> r.1 == files
  {
    DownloadFailureKeeps(platform, arch, output, version, files, tmp, net, mirror, tmp + [version, "node.exe"]);
    DownloadWith(platform, arch, output, version, files, tmp, net, mirror, tmp + [version, "node.exe"])
  }

  /** A download that fails changes nothing outside the temporary path, wherever below
      it the raw binary is written. */
  lemma DownloadFailureKeeps(platform: string, arch: string, output: Path, version: string, files: set<Path>,
                             tmp: Path, net: Network, mirror: string, rawTarget: Path)
    requires tmp <= rawTarget
    ensures var r := DownloadWith(platform, arch, output, version, files, tmp, net, mirror, rawTarget);
      r.0.Err? ==> r.1 == RemoveTree(files, tmp)
  {
    var archA := GetArch(platform, arch).UnwrapOr("undefined");
    RuntimeStaysInTmp(platform, version, tmp, archA, net, files, rawTarget);
  }

  /** Fetching and unpacking the runtime only touches paths below `tmp`. */
  lemma RuntimeStaysInTmp(platform: string, version: string, tmp: Path, arch: string, net: Network,
                          files: set<Path>, rawTarget: Path)
    requires tmp <= rawTarget
    ensures forall f :: !(tmp <= f) ==> (f in DownloadRuntime(platform, version, tmp, arch, net, files, rawTarget).1 <==> f in files)
  {
    var route := RouteFor(platform, version);
    if route.Ok? && FetchedFile(route.value, version, platform, arch).Ok? && net.fetchError.None? {
      match route.value
      case RawRoute =>
      case ZipRoute =>
        MoveStaysIn(files, tmp, tmp + [ZipFilepath(version, arch)], ["node.exe"], version);
      case GzRoute =>
        MoveStaysIn(files, tmp, tmp + [GzName(version, platform, arch)], ["bin", "node"], version);
    }
  }

  /** Unpacking below `top` and moving `top` to `tmp/<version>`, with `top` below `tmp`,
      keeps every path outside `tmp`. */
  lemma MoveStaysIn(files: set<Path>, tmp: Path, top: Path, rel: Path, version: string)
    requires tmp <= top
    ensures forall f :: !(tmp <= f) ==> (f in MoveTree(files + {top + rel}, top, tmp + [version]) <==> f in files)
  {
    forall f | !(tmp <= f)
      ensures f in MoveTree(files + {top + rel}, top, tmp + [version]) <==> f in files
    {
      assert (top + rel)[..|tmp|] == tmp;
      forall g | g in files + {top + rel} && top <= g
        ensures f != tmp + [version] + g[|top|..]
      {
        var h := tmp + [version] + g[|top|..];
        assert h[..|tmp|] == tmp;
      }
    }
  }

  /** A network that delivers everything and a checksum that matches. */
  predicate Healthy(net: Network, version: string, filepath: string)
  {
    && net.fetchError.None?
    && net.testChecksums.None?
    && net.checksumText.Ok? && net.actualChecksum.Ok?
    && ExpectedChecksum(net.checksumText.value, filepath) == Some(net.actualChecksum.value)
  }

  /** The setting of the installs below: nothing is under the temporary path yet, the
      target directory is absent, and the two paths are apart. */
  predicate FreshTargets(files: set<Path>, output: Path, version: string, tmp: Path)
  {
    && !Exists(files, tmp) && !Exists(files, output + [version])
    && !(tmp <= output + [version]) && !(output + [version] <= tmp)
  }

  /** Moving a tree puts every file of it below the target. */
  lemma MoveTreeLands(files: set<Path>, from: Path, to: Path, rel: Path)
    requires from + rel in files
    ensures to + rel in MoveTree(files, from, to)
  {
    var f := from + rel;
    assert from <= f;
    assert f[|from|..] == rel;
  }

  /** Nothing exists below a path where nothing exists. */
  lemma AbsentBelow(files: set<Path>, p: Path, q: Path)
    requires !Exists(files, p) && p <= q
    ensures !Exists(files, q)
  {
  }

  /** Adding one file makes something exist exactly at the file and its ancestors. */
  lemma ExistsAdded(files: set<Path>, x: Path, p: Path)
    ensures Exists(files + {x}, p) <==> Exists(files, p) || p <= x
  {
    if Exists(files + {x}, p) && !(p <= x) {
      var f :| f in files + {x} && p <= f;
      assert f in files;
    }
    if p <= x {
      assert x in files + {x};
    }
  }

  /** The raw route on Windows, for a healthy network: the binary lands at the target and
      the check passes. */
  lemma RawRuntime(version: string, tmp: Path, arch: string, net: Network, files: set<Path>, target: Path)
    requires !ShouldUseZip(version) && Compare.JsParse(version).Some?
    requires Healthy(net, version, RawFilepath(version, arch).value)
    ensures DownloadRuntime("win32", version, tmp, arch, net, files, target) == (Ok(None), files + {target})
  {
  }

  /** The raw route as written never installs anything: the binary is at the temporary
      path, nothing is at `tmp/<version>`, and the move fails. */
  lemma RawInstallFails(arch: string, output: Path, version: string, files: set<Path>, tmp: Path, net: Network, mirror: string)
    requires !ShouldUseZip(version) && Compare.JsParse(version).Some?
    requires FreshTargets(files, output, version, tmp)
    requires Healthy(net, version, RawFilepath(version, GetArch("win32", arch).UnwrapOr("undefined")).value)
    ensures DownloadAsWritten("win32", arch, output, version, files, tmp, net, mirror).0 == Err(NoSuchFile)
  {
    var archA := GetArch("win32", arch).UnwrapOr("undefined");
    var nodePath := output + [version];
    AbsentBelow(files, nodePath, nodePath + NodeFilename("win32"));
    RawRuntime(version, tmp, archA, net, files, tmp);
    AbsentBelow(files, tmp, tmp + [version]);
    ExistsAdded(files, tmp, tmp + [version]);
    assert !(tmp + [version] <= tmp);
  }

  /** A download whose runtime succeeded, with `tmp/<version>` present and the target
      free, installs by moving the one onto the other and then clears `tmp`. */
  lemma DownloadWithInstalls(platform: string, arch: string, output: Path, version: string, files: set<Path>,
                             tmp: Path, net: Network, mirror: string, rawTarget: Path, unpacked: set<Path>)
    requires !Exists(files, output + [version] + NodeFilename(platform))
    requires DownloadRuntime(platform, version, tmp, GetArch(platform, arch).UnwrapOr("undefined"), net, files, rawTarget)
      == (Ok(None), unpacked)
    requires Exists(unpacked, tmp + [version]) && !Exists(unpacked, output + [version])
    ensures DownloadWith(platform, arch, output, version, files, tmp, net, mirror, rawTarget)
      == (Ok(output + [version]), RemoveTree(MoveTree(unpacked, tmp + [version], output + [version]), tmp))
  {
  }

  /** With the raw binary written into `tmp/<version>`, a healthy Windows download
      installs `node.exe` under `output/<version>`, so that the next download finds it
      and does nothing. */
  lemma RawInstallFixed(arch: string, output: Path, version: string, files: set<Path>, tmp: Path, net: Network, mirror: string)
    requires !ShouldUseZip(version) && Compare.JsParse(version).Some?
    requires FreshTargets(files, output, version, tmp)
    requires Healthy(net, version, RawFilepath(version, GetArch("win32", arch).UnwrapOr("undefined")).value)
    ensures var (r, after) := Download("win32", arch, output, version, files, tmp, net, mirror);
      && r == Ok(output + [version])
      && Exists(after, output + [version] + NodeFilename("win32"))
      && Download("win32", arch, output, version, after, tmp, net, mirror) == (Ok(output + [version]), after)
  {
    RawFixedResult(arch, output, version, files, tmp, net, mirror);
    RawFixedLands(files, output, version, tmp);
    assert NodeFilename("win32") == ["node.exe"];
  }

  /** The first step of the above: the healthy raw download returns the target directory
      and leaves the moved tree without the temporary path. */
  lemma RawFixedResult(arch: string, output: Path, version: string, files: set<Path>, tmp: Path, net: Network, mirror: string)
    requires !ShouldUseZip(version) && Compare.JsParse(version).Some?
    requires FreshTargets(files, output, version, tmp)
    requires Healthy(net, version, RawFilepath(version, GetArch("win32", arch).UnwrapOr("undefined")).value)
    ensures Download("win32", arch, output, version, files, tmp, net, mirror)
      == (Ok(output + [version]),
          RemoveTree(MoveTree(files + {tmp + [version, "node.exe"]}, tmp + [version], output + [version]), tmp))
  {
    var archA := GetArch("win32", arch).UnwrapOr("undefined");
    var nodePath := output + [version];
    var binary := tmp + [version, "node.exe"];
    AbsentBelow(files, nodePath, nodePath + NodeFilename("win32"));
    RawRuntime(version, tmp, archA, net, files, binary);
    ExistsAdded(files, binary, tmp + [version]);
    assert tmp + [version] <= binary;
    ExistsAdded(files, binary, nodePath);
    if nodePath <= binary {
      PrefixesOrdered(tmp, nodePath, binary);
    }
    DownloadWithInstalls("win32", arch, output, version, files, tmp, net, mirror, binary, files + {binary});
  }

  /** The second step: after the move and the removal of the temporary path, `node.exe`
      is under the target directory. */
  lemma RawFixedLands(files: set<Path>, output: Path, version: string, tmp: Path)
    requires FreshTargets(files, output, version, tmp)
    ensures Exists(RemoveTree(MoveTree(files + {tmp + [version, "node.exe"]}, tmp + [version], output + [version]), tmp),
                   output + [version] + ["node.exe"])
  {
    var nodePath := output + [version];
    var unpacked := files + {tmp + [version, "node.exe"]};
    var moved := MoveTree(unpacked, tmp + [version], nodePath);
    assert tmp + [version, "node.exe"] == (tmp + [version]) + ["node.exe"];
    MoveTreeLands(unpacked, tmp + [version], nodePath, ["node.exe"]);
    if tmp <= nodePath + ["node.exe"] {
      PrefixesOrdered(tmp, nodePath, nodePath + ["node.exe"]);
    }
    InstalledSurvives(moved, tmp, nodePath + ["node.exe"]);
  }

  /** Two prefixes of one path are ordered. */
  lemma PrefixesOrdered(a: Path, b: Path, f: Path)
    requires a <= f && b <= f
    ensures a <= b || b <= a
  {
    if |a| <= |b| {
      assert a == f[..|a|] && b[..|a|] == f[..|a|];
    } else {
      assert b == f[..|b|] && a[..|b|] == f[..|b|];
    }
  }

  /** A file outside the temporary path survives its removal. */
  lemma InstalledSurvives(moved: set<Path>, tmp: Path, installed: Path)
    requires installed in moved && !(tmp <= installed)
    ensures installed in RemoveTree(moved, tmp) && Exists(RemoveTree(moved, tmp), installed)
  {
  }
}
