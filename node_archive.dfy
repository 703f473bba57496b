/** `Node::archive_basename` and `Node::archive_filename`: the name of the release
    archive for a version on the compile target, with the x64 fallback for arm64
    releases that predate native builds. */
module NodeArchive {
  import opened Wrappers
  import opened Strings
  import opened Semver
  import opened Distro

  /** The first major version with native arm64 builds, where the target has a fallback. */
  function NativeArmMajor(t: Target): nat
  {
    if t == Target(MacOs, Aarch64) then 16 else if t == Target(Windows, Aarch64) then 20 else 0
  }

  /** The arch component: the fallback below the native major, the target's own arch otherwise. */
  function ArchFor(t: Target, v: Version): string
    requires Supported(t)
  {
    var d := DistroFor(t).value;
    if d.fallback.Some? && v.major < NativeArmMajor(t) then d.fallback.value.arch else d.arch
  }

  function ArchiveBasename(t: Target, v: Version): string
    requires Supported(t)
  {
    "node-v" + Show(v) + "-" + DistroFor(t).value.os + "-" + ArchFor(t, v)
  }

  /** `(name, full_name)`: the basename and the basename with the distro extension. */
  function ArchiveFilename(t: Target, v: Version): (r: (string, string))
    requires Supported(t)
    ensures r.0 == ArchiveBasename(t, v)
    ensures r.1 == r.0 + "." + DistroFor(t).value.extension
  {
    var name := ArchiveBasename(t, v);
    (name, name + "." + DistroFor(t).value.extension)
  }

  /** On Apple Silicon the native arch is chosen exactly from major 16 on. */
  lemma MacArmChoice(v: Version)
    ensures ArchiveBasename(Target(MacOs, Aarch64), v)
         == "node-v" + Show(v) + "-darwin-" + (if v.major >= 16 then "arm64" else "x64")
    ensures ArchFor(Target(MacOs, Aarch64), v) == "arm64" <==> v.major >= 16
  {
  }

  /** On Windows on ARM the native arch is chosen exactly from major 20 on. */
  lemma WindowsArmChoice(v: Version)
    ensures ArchiveBasename(Target(Windows, Aarch64), v)
         == "node-v" + Show(v) + "-win-" + (if v.major >= 20 then "arm64" else "x64")
    ensures ArchFor(Target(Windows, Aarch64), v) == "arm64" <==> v.major >= 20
  {
  }

  /** Minor and patch never influence the arch choice. */
  lemma ArchDependsOnMajorOnly(t: Target, v: Version, w: Version)
    requires Supported(t) && v.major == w.major
    ensures ArchFor(t, v) == ArchFor(t, w)
  {
  }

  /** Every target without a fallback always uses its fixed arch. */
  lemma FixedArchElsewhere(t: Target, v: Version)
    requires Supported(t) && t !in {Target(MacOs, Aarch64), Target(Windows, Aarch64)}
    ensures ArchiveBasename(t, v)
         == "node-v" + Show(v) + "-" + DistroFor(t).value.os + "-" + DistroFor(t).value.arch
  {
    FallbackIsX64(t);
  }

  /** The version can be read back from a basename: it is the second `-`-separated field
      without its leading `v`. */
  function VersionOfBasename(name: string): Option<Version>
  {
    var fields := Split(name, '-');
    if |fields| == 4 && fields[0] == "node" && |fields[1]| > 0 && fields[1][0] == 'v'
    then Parse(fields[1][1..]) else None
  }

  lemma BasenameRoundTrip(t: Target, v: Version)
    requires Supported(t)
    ensures VersionOfBasename(ArchiveBasename(t, v)) == Some(v)
  {
    NoDashInFields(t, v);
    NameRoundTrip(v, DistroFor(t).value.os, ArchFor(t, v));
  }

  /** The os and arch fields of every supported target are free of '-'. */
  lemma NoDashInFields(t: Target, v: Version)
    requires Supported(t)
    ensures '-' !in DistroFor(t).value.os && '-' !in ArchFor(t, v)
  {
    var d := DistroFor(t).value;
    assert '-' !in d.os && '-' !in d.arch;
    assert d.fallback.Some? ==> '-' !in d.fallback.value.arch;
  }

  lemma NameRoundTrip(v: Version, os: string, arch: string)
    requires '-' !in os && '-' !in arch
    ensures VersionOfBasename("node-v" + Show(v) + "-" + os + "-" + arch) == Some(v)
  {
    var shown := Show(v);
    NoDashInShow(v);
    var parts := ["node", "v" + shown, os, arch];
    assert '-' !in "v" + shown;
    JoinFour(parts[0], parts[1], parts[2], parts[3]);
    var name := "node-v" + shown + "-" + os + "-" + arch;
    assert "node-v" + shown == "node" + "-" + ("v" + shown);
    assert name == Join(parts, "-");
    SplitJoin(parts, '-');
    assert Split(name, '-') == parts;
    assert ("v" + shown)[1..] == shown;
    ParseShow(v);
  }

  /** Two versions never share an archive name. */
  lemma BasenameInjective(t: Target, v: Version, w: Version)
    requires Supported(t) && ArchiveBasename(t, v) == ArchiveBasename(t, w)
    ensures v == w
  {
    BasenameRoundTrip(t, v);
    BasenameRoundTrip(t, w);
  }

  lemma NoDashInShow(v: Version)
    ensures '-' !in Show(v)
  {
    var a, b, c := NatToString(v.major), NatToString(v.minor), NatToString(v.patch);
    assert Show(v) == a + "." + b + "." + c;
    forall i | 0 <= i < |Show(v)| ensures Show(v)[i] != '-' {
      if i < |a| { assert Show(v)[i] == a[i]; }
      else if i == |a| { }
      else if i < |a| + 1 + |b| { assert Show(v)[i] == b[i - |a| - 1]; }
      else if i == |a| + 1 + |b| { }
      else { assert Show(v)[i] == c[i - |a| - 2 - |b|]; }
    }
  }

  lemma JoinFour(a: string, b: string, c: string, d: string)
    ensures Join([a, b, c, d], "-") == a + "-" + b + "-" + c + "-" + d
  {
    assert [a, b, c, d][1..] == [b, c, d];
    assert [b, c, d][1..] == [c, d];
    assert [c, d][1..] == [d];
    assert Join([c, d], "-") == c + "-" + d;
    assert Join([b, c, d], "-") == b + "-" + (c + "-" + d);
    assert Join([a, b, c, d], "-") == a + "-" + (b + "-" + (c + "-" + d));
  }

  // The crate's own unit tests, stated for every target they run on.

  lemma BasenameTest(t: Target)
    requires Supported(t)
    ensures ArchiveBasename(t, Version(20, 2, 3))
         == "node-v20.2.3-" + DistroFor(t).value.os + "-" + DistroFor(t).value.arch
  {
    assert ArchFor(t, Version(20, 2, 3)) == DistroFor(t).value.arch by {
      FallbackIsX64(t);
    }
    SmallNumerals();
    ShownVersion(20, 2, 3, "20.2.3");
  }

  /** The text of a version whose three numbers are given as numerals. */
  lemma ShownVersion(major: nat, minor: nat, patch: nat, text: string)
    requires major < 100 && minor < 10 && patch < 10
    requires text == NatToString(major) + "." + NatToString(minor) + "." + NatToString(patch)
    ensures Show(Version(major, minor, patch)) == text
  {
  }

  /** The numerals of the versions above. */
  lemma SmallNumerals()
    ensures NatToString(2) == "2" && NatToString(3) == "3"
    ensures NatToString(15) == "15" && NatToString(19) == "19" && NatToString(20) == "20"
  {
  }

  lemma FilenameTest(t: Target)
    requires Supported(t)
    ensures ArchiveFilename(t, Version(20, 2, 3)).1
         == "node-v20.2.3-" + DistroFor(t).value.os + "-" + DistroFor(t).value.arch + "." + DistroFor(t).value.extension
  {
    BasenameTest(t);
  }

  lemma FallbackTests()
    ensures ArchiveBasename(Target(MacOs, Aarch64), Version(15, 2, 3)) == "node-v15.2.3-darwin-x64"
    ensures ArchiveFilename(Target(MacOs, Aarch64), Version(15, 2, 3)).1 == "node-v15.2.3-darwin-x64.tar.gz"
    ensures ArchiveBasename(Target(Windows, Aarch64), Version(19, 2, 3)) == "node-v19.2.3-win-x64"
    ensures ArchiveFilename(Target(Windows, Aarch64), Version(19, 2, 3)).1 == "node-v19.2.3-win-x64.zip"
  {
    MacFallbackTest();
    WindowsFallbackTest();
  }

  lemma MacFallbackTest()
    ensures ArchiveBasename(Target(MacOs, Aarch64), Version(15, 2, 3)) == "node-v15.2.3-darwin-x64"
    ensures ArchiveFilename(Target(MacOs, Aarch64), Version(15, 2, 3)).1 == "node-v15.2.3-darwin-x64.tar.gz"
  {
    MacFallbackName();
    var name := ArchiveBasename(Target(MacOs, Aarch64), Version(15, 2, 3));
    assert name + "." + "tar.gz" == "node-v15.2.3-darwin-x64.tar.gz";
  }

  lemma MacFallbackName()
    ensures ArchiveBasename(Target(MacOs, Aarch64), Version(15, 2, 3)) == "node-v15.2.3-darwin-x64"
  {
    var v := Version(15, 2, 3);
    SmallNumerals();
    ShownVersion(15, 2, 3, "15.2.3");
    MacArmChoice(v);
    assert "node-v" + "15.2.3" + "-darwin-" + "x64" == "node-v15.2.3-darwin-x64" by {
      NameLiteral15();
    }
  }

  lemma NameLiteral15()
    ensures "node-v" + "15.2.3" + "-darwin-" + "x64" == "node-v15.2.3-darwin-x64"
  {
  }


  lemma WindowsFallbackTest()
    ensures ArchiveBasename(Target(Windows, Aarch64), Version(19, 2, 3)) == "node-v19.2.3-win-x64"
    ensures ArchiveFilename(Target(Windows, Aarch64), Version(19, 2, 3)).1 == "node-v19.2.3-win-x64.zip"
  {
    WindowsFallbackName();
    var name := ArchiveBasename(Target(Windows, Aarch64), Version(19, 2, 3));
    assert name + "." + "zip" == "node-v19.2.3-win-x64.zip";
  }

  lemma WindowsFallbackName()
    ensures ArchiveBasename(Target(Windows, Aarch64), Version(19, 2, 3)) == "node-v19.2.3-win-x64"
  {
    var v := Version(19, 2, 3);
    SmallNumerals();
    ShownVersion(19, 2, 3, "19.2.3");
    WindowsArmChoice(v);
    assert "node-v" + "19.2.3" + "-win-" + "x64" == "node-v19.2.3-win-x64" by {
      NameLiteral19();
    }
  }

  lemma NameLiteral19()
    ensures "node-v" + "19.2.3" + "-win-" + "x64" == "node-v19.2.3-win-x64"
  {
  }

}
