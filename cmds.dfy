/** `cmds`: the commands the web view invokes. Most forward to `core` (modelled there)
    with `wrap_err!`; the two with logic of their own are `update_settings` and the
    `uninstall_node` guard. */
module Cmds {
  import opened Wrappers
  import opened Drafts
  import opened Settings
  import CoreNode

  /** `update_settings` as written. The old locale and directory are read from the newest
      settings; the patch is applied to the newest value (its save result discarded, as
      the `wrap_err!` around it is not followed by `?`) and the store applied. The
      installed list is refreshed when the old directory differs from the patch's, and
      the tray when the locale or directory does, comparing the raw options. */
  function UpdateSettings(s: Store<Settings>, patch: Settings, saved: Status): (Store<Settings>, Status, bool, bool)
  {
    var locale := Latest(s).locale;
    var directory := Latest(s).directory;
    var patched := LatestEdited(s, (x: Settings) => PatchSettings(x, patch, saved).0);
    (Applied(patched).0, Done, directory != patch.directory, locale != patch.locale || directory != patch.directory)
  }

  /** `update_settings` with the save failure reported: the patched draft is left in
      place, not applied, and nothing is refreshed. */
  function UpdateSettingsIntended(s: Store<Settings>, patch: Settings, saved: Status)
    : (r: (Store<Settings>, Status, bool, bool))
    ensures saved.Failed? ==> r == (LatestEdited(s, (x: Settings) => Patch(x, patch)), saved, false, false)
    ensures saved.Done? ==> r == UpdateSettings(s, patch, saved)
  {
    if saved.Failed? then (LatestEdited(s, (x: Settings) => PatchSettings(x, patch, saved).0), saved, false, false)
    else UpdateSettings(s, patch, saved)
  }

  /** What `update_settings` does: the patch reaches the committed settings with no draft
      left, the result is always success, and the two refreshes follow the raw-option
      comparisons; a patch without a directory counts as a directory change whenever one
      was set. */
  lemma UpdateSettingsEffect(s: Store<Settings>, patch: Settings, saved: Status)
    ensures var (after, r, installed, tray) := UpdateSettings(s, patch, saved);
      && after == Store(Patch(Latest(s), patch), None)
      && r == Done
      && (installed <==> Latest(s).directory != patch.directory)
      && (tray <==> Latest(s).locale != patch.locale || Latest(s).directory != patch.directory)
      && (installed ==> tray)
      && (patch.directory.None? && Latest(s).directory.Some? ==> installed && after.committed.directory == Latest(s).directory)
  {
    var edit := (x: Settings) => PatchSettings(x, patch, saved).0;
    var patched := LatestEdited(s, edit);
    assert edit(Latest(s)) == Patch(Latest(s), patch);
    EditLatestThenApply(s, edit);
    assert Applied(patched).0 == Store(Patch(Latest(s), patch), None);
  }

  /** A failed save is reported as success by the command as written, and as the error
      by the intended version. */
  lemma SaveFailureHidden(s: Store<Settings>, patch: Settings, e: string)
    ensures UpdateSettings(s, patch, Failed(e)).1 == Done
    ensures UpdateSettingsIntended(s, patch, Failed(e)).1 == Failed(e)
  {
  }

  /** `update_settings` on the shared store, with the save failure reported as
      `UpdateSettingsIntended` says. */
  method UpdateSettingsCommand(settings: Draft<Settings>, patch: Settings, saved: Status)
    returns (r: Status, refreshInstalled: bool, refreshTray: bool)
    modifies settings
    ensures (settings.State(), r, refreshInstalled, refreshTray) == UpdateSettingsIntended(old(settings.State()), patch, saved)
  {
    var locale := settings.Newest().locale;
    var directory := settings.Newest().directory;
    settings.EditLatest((x: Settings) => PatchSettings(x, patch, saved).0);
    if saved.Failed? {
      return saved, false, false;
    }
    var _ := settings.Apply();
    refreshInstalled := directory != patch.directory;
    refreshTray := locale != patch.locale || directory != patch.directory;
    r := Done;
  }

  const VersionNull := "version should not be null"

  /** `uninstall_node`: without a version it fails before touching the disk. */
  function UninstallNode(version: Option<string>, present: set<string>, directory: Option<string>, current: Option<bool>,
                         defaultPath: Result<string>): (r: (Status, set<string>))
    ensures version.None? ==> r == (Failed(VersionNull), present)
    ensures version.Some? ==> r == CoreNode.UninstallNode(present, directory, version.value, current, defaultPath)
  {
    if version.None? then (Failed(VersionNull), present)
    else CoreNode.UninstallNode(present, directory, version.value, current, defaultPath)
  }
}
