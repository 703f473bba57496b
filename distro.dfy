/** The Node distribution constants the get-node crate selects at compile time
    (`NODE_DISTRO_OS`, `NODE_DISTRO_ARCH`, `NODE_DISTRO_EXTENSION`,
    `NODE_DISTRO_IDENTIFIER` and, on the two arm64 targets that once lacked native
    builds, the `_FALLBACK` pair). The `cfg_if!` choice becomes an explicit target. */
module Distro {
  import opened Wrappers

  /** The `target_os` the crate is compiled for. */
  datatype Os = Windows | MacOs | Linux | OtherOs

  /** The `target_arch` the crate is compiled for. */
  datatype Cpu = X86 | X86_64 | Aarch64 | Arm | OtherCpu

  datatype Target = Target(os: Os, cpu: Cpu)

  datatype Fallback = Fallback(arch: string, identifier: string)

  datatype Distro = Distro(os: string, arch: string, extension: string, identifier: string, fallback: Option<Fallback>)

  /** The constant block `cfg_if!` selects; `None` is the `compile_error!` branch. */
  function DistroFor(t: Target): Option<Distro>
  {
    match t
    case Target(Windows, X86) => Some(Distro("win", "x86", "zip", "win-x86-zip", None))
    case Target(Windows, X86_64) => Some(Distro("win", "x64", "zip", "win-x64-zip", None))
    case Target(Windows, Aarch64) =>
      Some(Distro("win", "arm64", "zip", "win-arm64-zip", Some(Fallback("x64", "win-x64-zip"))))
    case Target(MacOs, X86_64) => Some(Distro("darwin", "x64", "tar.gz", "osx-x64-tar", None))
    case Target(MacOs, Aarch64) =>
      Some(Distro("darwin", "arm64", "tar.gz", "osx-arm64-tar", Some(Fallback("x64", "osx-x64-tar"))))
    case Target(Linux, X86_64) => Some(Distro("linux", "x64", "tar.gz", "linux-x64", None))
    case Target(Linux, Aarch64) => Some(Distro("linux", "arm64", "tar.gz", "linux-arm64", None))
    case Target(Linux, Arm) => Some(Distro("linux", "armv7l", "tar.gz", "linux-armv7l", None))
    case _ => None
  }

  predicate Supported(t: Target) { DistroFor(t).Some? }

  /** The arch component Node uses for each CPU family. */
  function ArchId(c: Cpu): string
  {
    match c
    case X86 => "x86"
    case X86_64 => "x64"
    case Aarch64 => "arm64"
    case Arm => "armv7l"
    case OtherCpu => ""
  }

  /** Exactly the eight targets above compile; every other combination is rejected. */
  lemma SupportedTargets(t: Target)
    ensures Supported(t) <==>
      t in {Target(Windows, X86), Target(Windows, X86_64), Target(Windows, Aarch64),
            Target(MacOs, X86_64), Target(MacOs, Aarch64),
            Target(Linux, X86_64), Target(Linux, Aarch64), Target(Linux, Arm)}
  {
  }

  /** Every supported target uses its CPU's arch id. */
  lemma ArchIdOfTarget(t: Target)
    requires Supported(t)
    ensures DistroFor(t).value.arch == ArchId(t.cpu)
  {
  }

  lemma WindowsDistros(t: Target)
    requires Supported(t) && t.os == Windows
    ensures var d := DistroFor(t).value;
      d.os == "win" && d.extension == "zip" && d.identifier == "win-" + d.arch + "-zip"
  {
  }

  lemma MacDistros(t: Target)
    requires Supported(t) && t.os == MacOs
    ensures var d := DistroFor(t).value;
      d.os == "darwin" && d.extension == "tar.gz" && d.identifier == "osx-" + d.arch + "-tar"
  {
  }

  lemma LinuxDistros(t: Target)
    requires Supported(t) && t.os == Linux
    ensures var d := DistroFor(t).value;
      d.os == "linux" && d.extension == "tar.gz" && d.identifier == "linux-" + d.arch
  {
  }

  /** Only the two arm64 targets with late native builds carry a fallback, and it is the
      same OS's x64 distribution. */
  lemma FallbackIsX64(t: Target)
    requires Supported(t)
    ensures DistroFor(t).value.fallback.Some? <==> t in {Target(Windows, Aarch64), Target(MacOs, Aarch64)}
    ensures DistroFor(t).value.fallback.Some? ==>
      var x64 := DistroFor(Target(t.os, X86_64)).value;
      DistroFor(t).value.fallback.value == Fallback(x64.arch, x64.identifier)
  {
  }
}
