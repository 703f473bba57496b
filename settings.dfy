/** `ISettings`: the user's settings, every field optional. The record is held by value
    inside a `Draft` (which clones it), so it is a datatype here and `patch_settings`
    yields the patched record. */
module Settings {
  import opened Wrappers
  import VersionList

  type Proxy = VersionList.Proxy

  datatype Settings = Settings(
    closer: Option<string>,
    directory: Option<string>,
    enableSilentStart: Option<bool>,
    locale: Option<string>,
    mirror: Option<string>,
    proxy: Option<Proxy>,
    noProxy: Option<bool>,
    theme: Option<string>)

  /** `ISettings::default()`: every field absent. */
  const Empty := Settings(None, None, None, None, None, None, None, None)

  /** `template`, given `dirs::default_install_dir()`. */
  function Template(installDir: string): (s: Settings)
    ensures s.directory == Some(installDir)
    ensures s.enableSilentStart == Some(false) && s.noProxy == Some(false)
    ensures s.locale == Some("en") && s.theme == Some("system")
    ensures s.mirror == Some("https://nodejs.org/dist")
    ensures s.proxy.None? && s.closer.None?
  {
    Empty.(directory := Some(installDir), enableSilentStart := Some(false), locale := Some("en"),
           mirror := Some("https://nodejs.org/dist"), noProxy := Some(false), theme := Some("system"))
  }

  /** `new`: the settings file as read and parsed, or the template when that failed. */
  function Load(file: Result<Settings>, installDir: string): (s: Settings)
    ensures file.Ok? ==> s == file.value
    ensures file.Err? ==> s == Template(installDir)
  {
    if file.Ok? then file.value else Template(installDir)
  }

  function PatchField<T>(current: Option<T>, patch: Option<T>): Option<T>
  {
    if patch.Some? then patch else current
  }

  /** The in-memory part of `patch_settings`: a present field of the patch wins. */
  function Patch(s: Settings, p: Settings): Settings
  {
    Settings(PatchField(s.closer, p.closer), PatchField(s.directory, p.directory),
             PatchField(s.enableSilentStart, p.enableSilentStart), PatchField(s.locale, p.locale),
             PatchField(s.mirror, p.mirror), PatchField(s.proxy, p.proxy),
             PatchField(s.noProxy, p.noProxy), PatchField(s.theme, p.theme))
  }

  /** `patch_settings`: the fields are overwritten first, then the file is saved; a failed
      save (`saved`) is returned with the patch already applied. */
  function PatchSettings(s: Settings, p: Settings, saved: Status): (r: (Settings, Status))
    ensures r.1 == saved
    ensures r.0.closer == (if p.closer.Some? then p.closer else s.closer)
    ensures r.0.directory == (if p.directory.Some? then p.directory else s.directory)
    ensures r.0.enableSilentStart == (if p.enableSilentStart.Some? then p.enableSilentStart else s.enableSilentStart)
    ensures r.0.locale == (if p.locale.Some? then p.locale else s.locale)
    ensures r.0.mirror == (if p.mirror.Some? then p.mirror else s.mirror)
    ensures r.0.proxy == (if p.proxy.Some? then p.proxy else s.proxy)
    ensures r.0.noProxy == (if p.noProxy.Some? then p.noProxy else s.noProxy)
    ensures r.0.theme == (if p.theme.Some? then p.theme else s.theme)
  {
    (Patch(s, p), saved)
  }

  /** A patch with no field set changes nothing. */
  lemma EmptyPatch(s: Settings)
    ensures Patch(s, Empty) == s
  {
  }

  /** Patching with the same record twice is patching once. */
  lemma PatchIdempotent(s: Settings, p: Settings)
    ensures Patch(Patch(s, p), p) == Patch(s, p)
  {
  }

  /** Two patches in a row are one patch with the later one's fields winning. */
  lemma PatchCompose(s: Settings, p: Settings, q: Settings)
    ensures Patch(Patch(s, p), q) == Patch(s, Patch(p, q))
  {
  }

  /** A complete patch replaces the record outright. */
  lemma FullPatchReplaces(s: Settings, p: Settings)
    requires p.closer.Some? && p.directory.Some? && p.enableSilentStart.Some? && p.locale.Some?
    requires p.mirror.Some? && p.proxy.Some? && p.noProxy.Some? && p.theme.Some?
    ensures Patch(s, p) == p
  {
  }
}
