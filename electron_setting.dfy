/** `src/main/utils/setting.ts`: the Electron back end's settings file. The file as read
    is an input: missing (None), null because it could not be parsed (Some(None)), or an
    object. An empty string, a None closer and a None proxy are the falsy fields the reader
    fills in. The system locale and the install directory are parameters. */
module ElectronSetting {
  import opened Wrappers

  const NullSetting := "Cannot read properties of null (reading 'directory')"
  const DefaultMirror := "https://nodejs.org/dist"
  const DefaultIp := "127.0.0.1"
  const DefaultPort := "8080"

  datatype Closer = Minimize | Close

  datatype Proxy = Proxy(enabled: bool, ip: string, port: string)

  datatype Setting = Setting(locale: string, theme: string, closer: Option<Closer>, directory: string,
                             mirror: string, proxy: Option<Proxy>)

  /** The proxy used when none is configured: off, on the local address and port 8080. */
  const NoProxy := Proxy(false, DefaultIp, DefaultPort)

  /** The settings used when there is no file: English for any English system locale,
      Simplified Chinese otherwise; the system theme; minimise on close. */
  function DefaultSetting(appLocale: string, installDir: string): (s: Setting)
    ensures s.locale == (if "en" <= appLocale then "en" else "zh-CN")
    ensures s.theme == "system" && s.closer == Some(Minimize) && s.directory == installDir
    ensures s.mirror == DefaultMirror && s.proxy == Some(NoProxy)
  {
    Setting(if |appLocale| >= 2 && appLocale[..2] == "en" then "en" else "zh-CN",
            "system", Some(Minimize), installDir, DefaultMirror, Some(NoProxy))
  }

  /** The falsy directory, closer and proxy of a stored object are filled in; the other
      fields stay as stored. */
  function Filled(s: Setting, installDir: string): (r: Setting)
    ensures r.locale == s.locale && r.theme == s.theme && r.mirror == s.mirror
    ensures r.directory == (if s.directory == "" then installDir else s.directory)
    ensures r.closer == (if s.closer.None? then Some(Minimize) else s.closer)
    ensures r.proxy == (if s.proxy.None? then Some(NoProxy) else s.proxy)
  {
    s.(directory := if s.directory == "" then installDir else s.directory,
       closer := if s.closer.None? then Some(Minimize) else s.closer,
       proxy := if s.proxy.None? then Some(NoProxy) else s.proxy)
  }

  /** What a reader may rely on: a closer and a proxy are set, and so is the directory
      when the install directory is. */
  predicate Complete(s: Setting, installDir: string)
  {
    s.closer.Some? && s.proxy.Some? && (installDir != "" ==> s.directory != "")
  }

  /** Filling in a second time changes nothing. */
  lemma FilledIdempotent(s: Setting, installDir: string)
    ensures Filled(Filled(s, installDir), installDir) == Filled(s, installDir)
  {
  }

  /** `getSetting` as written: the fields of the parsed value are read before the
      `|| defaultSetting` fallback, so a null file throws. */
  function GetSettingAsWritten(appLocale: string, installDir: string, file: Option<Option<Setting>>): (r: Result<Setting>)
    ensures file.None? ==> r == Ok(DefaultSetting(appLocale, installDir))
    ensures file == Some(None) ==> r == Err(NullSetting)
    ensures file.Some? && file.value.Some? ==> r == Ok(Filled(file.value.value, installDir))
  {
    match file
    case None => Ok(DefaultSetting(appLocale, installDir))
    case Some(None) => Err(NullSetting)
    case Some(Some(s)) => Ok(Filled(s, installDir))
  }

  /** An unreadable settings file makes `getSetting` fail instead of falling back. */
  lemma NullSettingThrows(appLocale: string, installDir: string)
    ensures GetSettingAsWritten(appLocale, installDir, Some(None)).Err?
  {
  }

  /** `getSetting` as its final `|| defaultSetting` intends: a null file gives the default
      settings. */
  function GetSetting(appLocale: string, installDir: string, file: Option<Option<Setting>>): (r: Setting)
    ensures file.None? || file == Some(None) ==> r == DefaultSetting(appLocale, installDir)
    ensures file.Some? && file.value.Some? ==> r == Filled(file.value.value, installDir)
  {
    match file
    case Some(Some(s)) => Filled(s, installDir)
    case _ => DefaultSetting(appLocale, installDir)
  }

  /** The corrected reader never fails and always gives complete settings; where the
      reader as written succeeds, the two agree. */
  lemma GetSettingComplete(appLocale: string, installDir: string, file: Option<Option<Setting>>)
    ensures Complete(GetSetting(appLocale, installDir, file), installDir)
    ensures GetSettingAsWritten(appLocale, installDir, file).Ok? ==>
      GetSettingAsWritten(appLocale, installDir, file).value == GetSetting(appLocale, installDir, file)
  {
  }

  /** `setSetting`: the file holds the settings, unless the write fails, which is
      swallowed. */
  function SetSetting(file: Option<Option<Setting>>, s: Setting, written: bool): (r: Option<Option<Setting>>)
    ensures written ==> r == Some(Some(s))
    ensures !written ==> r == file
  {
    if written then Some(Some(s)) else file
  }

  /** Settings saved and read back are the saved ones, filled in. */
  lemma SetThenGet(appLocale: string, installDir: string, file: Option<Option<Setting>>, s: Setting)
    ensures GetSetting(appLocale, installDir, SetSetting(file, s, true)) == Filled(s, installDir)
    ensures Complete(s, installDir) && s.directory != "" ==>
      GetSetting(appLocale, installDir, SetSetting(file, s, true)) == s
  {
  }
}
