/** `core::configration`: exporting the settings, mirrors, projects and groups to a json
    file and importing them back. The dialog's choice, the file's text, json decoding and
    the save results are parameters; `.nvmdrc` files are the `RcDisk` of `CoreProject`. */
module Configration {
  import opened Wrappers
  import opened Drafts
  import opened Settings
  import opened Groups
  import opened CoreProject

  /** What the user asked to export. */
  datatype ConfigrationExport = ConfigrationExport(color: Option<string>, setting: Option<bool>,
                                                   mirrors: Option<string>, projects: Option<bool>)

  /** The file's contents. */
  datatype ConfigrationData = ConfigrationData(color: Option<string>, setting: Option<Settings>, mirrors: Option<string>,
                                               projects: Option<seq<Project>>, groups: Option<seq<Group>>)

  /** What the import hands back to the page. */
  datatype ConfigrationImport = ConfigrationImport(color: Option<string>, setting: Option<Settings>, mirrors: Option<string>)

  /** The dialog's answer: a file path with the result of reading it, or a URL. */
  datatype Picked = PathFile(text: Result<string>) | UrlFile

  const UnsupportedUrl := "Unsupported URL scheme"

  /** `configration_export`'s output, from the newest settings, projects and groups. */
  function ExportData(c: ConfigrationExport, settings: Settings, projects: Option<seq<Project>>, groups: Option<seq<Group>>)
    : (d: ConfigrationData)
    ensures d.color == c.color
    ensures c.setting.UnwrapOr(false) ==> d.setting == Some(settings) && d.mirrors == c.mirrors
    ensures !c.setting.UnwrapOr(false) ==> d.setting.None? && d.mirrors.None?
    ensures c.projects.UnwrapOr(false) ==> d.projects == projects && d.groups == groups
    ensures !c.projects.UnwrapOr(false) ==> d.projects.None? && d.groups.None?
  {
    var withColor := ConfigrationData(c.color, None, None, None, None);
    var withSetting := if c.setting.UnwrapOr(false) then withColor.(setting := Some(settings), mirrors := c.mirrors) else withColor;
    if c.projects.UnwrapOr(false) then withSetting.(projects := projects, groups := groups) else withSetting
  }

  /** Index of the first group called `name`, or the length. */
  function FirstGroupNamed(gs: seq<Group>, name: string): (k: nat)
    ensures k <= |gs|
    ensures forall j :: 0 <= j < k ==> gs[j].name != name
    ensures k < |gs| ==> gs[k].name == name
    decreases |gs|
  {
    if gs == [] || gs[0].name == name then 0 else 1 + FirstGroupNamed(gs[1..], name)
  }

  /** The version synced for a project: a version naming a group (the first so named)
      stands for that group's version. */
  function Effective(p: Project, gs: seq<Group>): (v: Option<string>)
    ensures p.version.None? ==> v.None?
    ensures p.version.Some? && (forall j :: 0 <= j < |gs| ==> gs[j].name != p.version.value) ==> v == p.version
    ensures p.version.Some? && (exists j :: 0 <= j < |gs| && gs[j].name == p.version.value) ==>
      v == gs[FirstGroupNamed(gs, p.version.value)].version
  {
    if p.version.None? then None
    else
      var k := FirstGroupNamed(gs, p.version.value);
      if k < |gs| then gs[k].version else p.version
  }

  /** The sync loop's writes, stopping at the first failure. */
  function SyncFrom(disk: RcDisk, ps: seq<Project>, gs: seq<Group>): (r: (Status, RcDisk))
    decreases |ps|
  {
    if ps == [] then (Done, disk)
    else
      var v := Effective(ps[0], gs);
      if v.None? then SyncFrom(disk, ps[1..], gs)
      else
        var (s, d) := SaveRc(disk, ps[0].path, v.value);
        if s.Failed? then (s, d) else SyncFrom(d, ps[1..], gs)
  }

  /** A sync that succeeds leaves each project's effective version in its folder, the
      last one listed winning when two share a folder. */
  lemma {:induction false} SyncWrites(disk: RcDisk, ps: seq<Project>, gs: seq<Group>, i: nat)
    requires SyncFrom(disk, ps, gs).0.Done?
    requires i < |ps| && Effective(ps[i], gs).Some?
    requires forall j :: i < j < |ps| ==> ps[j].path != ps[i].path
    ensures ps[i].path in SyncFrom(disk, ps, gs).1.rc
    ensures SyncFrom(disk, ps, gs).1.rc[ps[i].path] == Effective(ps[i], gs).value
    decreases |ps|
  {
    var v := Effective(ps[0], gs);
    var next := if v.None? then disk else SaveRc(disk, ps[0].path, v.value).1;
    assert SyncFrom(disk, ps, gs) == SyncFrom(next, ps[1..], gs);
    if i == 0 {
      SyncKeeps(next, ps[1..], gs, ps[0].path);
    } else {
      SyncWrites(next, ps[1..], gs, i - 1);
    }
  }

  /** A folder none of the remaining projects names keeps its `.nvmdrc`. */
  lemma {:induction false} SyncKeeps(disk: RcDisk, ps: seq<Project>, gs: seq<Group>, path: string)
    requires path in disk.rc
    requires forall j :: 0 <= j < |ps| ==> ps[j].path != path
    ensures path in SyncFrom(disk, ps, gs).1.rc && SyncFrom(disk, ps, gs).1.rc[path] == disk.rc[path]
    decreases |ps|
  {
    if ps != [] {
      var v := Effective(ps[0], gs);
      var next := if v.None? then disk else SaveRc(disk, ps[0].path, v.value).1;
      SyncKeeps(next, ps[1..], gs, path);
    }
  }

  /** The `for project in &projects` loop of the import. */
  method SyncVersions(disk: RcDisk, ps: seq<Project>, gs: seq<Group>) returns (w: Status, after: RcDisk)
    ensures (w, after) == SyncFrom(disk, ps, gs)
  {
    after := disk;
    var i := 0;
    while i < |ps|
      invariant 0 <= i <= |ps|
      invariant SyncFrom(disk, ps, gs) == SyncFrom(after, ps[i..], gs)
    {
      assert ps[i..][1..] == ps[i + 1..];
      var version := ps[i].version;
      if version.Some? {
        var k := FirstGroupNamed(gs, version.value);
        if k < |gs| {
          version := gs[k].version;
        }
      }
      if version.Some? {
        var (s, d) := SaveRc(after, ps[i].path, version.value);
        if s.Failed? {
          return s, d;
        }
        after := d;
      }
      i := i + 1;
    }
    w := Done;
  }

  /** `configration_import`. `decode` stands for json decoding; `projectsSaved`,
      `groupsSaved`, `systray` and `notified` are the results of saving the two files,
      refreshing the tray and notifying the main window. */
  method Import(projects: Draft<IProjects>, groups: Draft<Groups>, picked: Option<Picked>,
                decode: string -> Result<ConfigrationData>, sync: bool, disk: RcDisk,
                projectsSaved: Status, groupsSaved: Status, systray: Status, notified: Status)
    returns (r: Result<Option<ConfigrationImport>>, after: RcDisk)
    modifies projects, groups
    ensures picked.None? ==>
      r == Ok(None) && after == disk && projects.State() == old(projects.State()) && groups.State() == old(groups.State())
    ensures picked == Some(UrlFile) ==>
      r == Err(UnsupportedUrl) && after == disk && projects.State() == old(projects.State()) && groups.State() == old(groups.State())
    ensures picked.Some? && picked.value.PathFile? && picked.value.text.Err? ==>
      r == Err(picked.value.text.error) && after == disk && projects.State() == old(projects.State()) && groups.State() == old(groups.State())
    ensures picked.Some? && picked.value.PathFile? && picked.value.text.Ok? && decode(picked.value.text.value).Err? ==>
      r == Err(decode(picked.value.text.value).error) && after == disk
      && projects.State() == old(projects.State()) && groups.State() == old(groups.State())
    ensures picked.Some? && picked.value.PathFile? && picked.value.text.Ok? && decode(picked.value.text.value).Ok? ==>
      var c := decode(picked.value.text.value).value;
      var ps := c.projects.UnwrapOr([]);
      var gs := c.groups.UnwrapOr([]);
      var (w, d) := if sync then SyncFrom(disk, ps, gs) else (Done, disk);
      var newProjects := Applied(Edited(old(projects.State()), (p: IProjects) => IProjects(Some(ps)))).0;
      var newGroups := Applied(Edited(old(groups.State()), (g: Groups) => Groups(Some(gs)))).0;
      && after == d
      && (w.Failed? ==> r == Err(w.error) && projects.State() == old(projects.State()) && groups.State() == old(groups.State()))
      && (w.Done? ==>
            && projects.State() == (if ps != [] then newProjects else old(projects.State()))
            && (ps != [] && projectsSaved.Failed? ==> r == Err(projectsSaved.error) && groups.State() == old(groups.State()))
            && (ps == [] || projectsSaved.Done? ==>
                  && groups.State() == (if gs != [] then newGroups else old(groups.State()))
                  && r == (if gs != [] && groupsSaved.Failed? then Err(groupsSaved.error)
                           else if (ps != [] || gs != []) && systray.Failed? then Err(systray.error)
                           else if (ps != [] || gs != []) && notified.Failed? then Err(notified.error)
                           else Ok(Some(ConfigrationImport(c.color, c.setting, c.mirrors))))))
  {
    after := disk;
    if picked.None? {
      return Ok(None), after;
    }
    if picked.value.UrlFile? {
      return Err(UnsupportedUrl), after;
    }
    if picked.value.text.Err? {
      return Err(picked.value.text.error), after;
    }
    var decoded := decode(picked.value.text.value);
    if decoded.Err? {
      return Err(decoded.error), after;
    }
    var c := decoded.value;
    var ps := c.projects.UnwrapOr([]);
    var gs := c.groups.UnwrapOr([]);
    if sync {
      var w;
      w, after := SyncVersions(disk, ps, gs);
      if w.Failed? {
        return Err(w.error), after;
      }
    }
    var needProjects := ps != [];
    var needGroups := gs != [];
    if needProjects {
      var _ := projects.EditDraft((p: IProjects) => IProjects(Some(ps)));
      var _ := projects.Apply();
      if projectsSaved.Failed? {
        return Err(projectsSaved.error), after;
      }
    }
    if needGroups {
      var _ := groups.EditDraft((g: Groups) => Groups(Some(gs)));
      var _ := groups.Apply();
      if groupsSaved.Failed? {
        return Err(groupsSaved.error), after;
      }
    }
    if needProjects || needGroups {
      if systray.Failed? {
        return Err(systray.error), after;
      }
      if notified.Failed? {
        return Err(notified.error), after;
      }
    }
    r := Ok(Some(ConfigrationImport(c.color, c.setting, c.mirrors)));
  }

  /** Exporting everything and importing the file back, without sync, hands back the
      exported settings and mirrors and commits the exported projects and groups (when
      there are any). */
  lemma ExportImportRoundTrip(c: ConfigrationExport, settings: Settings, ps: seq<Project>, gs: seq<Group>,
                              sp: Store<IProjects>, sg: Store<Groups>)
    requires c.setting == Some(true) && c.projects == Some(true)
    ensures var d := ExportData(c, settings, Some(ps), Some(gs));
      && ConfigrationImport(d.color, d.setting, d.mirrors) == ConfigrationImport(c.color, Some(settings), c.mirrors)
      && Applied(Edited(sp, (p: IProjects) => IProjects(Some(d.projects.UnwrapOr([]))))).0.committed == IProjects(Some(ps))
      && Applied(Edited(sg, (g: Groups) => Groups(Some(d.groups.UnwrapOr([]))))).0.committed == Groups(Some(gs))
  {
  }
}
