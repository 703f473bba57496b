/** `core::project`: the project list and the `.nvmdrc` file in each project folder, and
    the tray-menu actions that move a project to a version or to a group. The project
    and group stores are `Draft`s; each folder's `.nvmdrc` is modelled as an entry of
    `RcDisk`, and save results of the json files are parameters. */
module CoreProject {
  import opened Wrappers
  import opened Drafts
  import opened Groups

  datatype Project = Project(active: bool, name: string, path: string, version: Option<string>,
                             createAt: string, updateAt: string)

  datatype IProjects = IProjects(list: Option<seq<Project>>)

  /** Project folders that exist, the `.nvmdrc` contents by folder, and the folders where
      writing fails. */
  datatype RcDisk = RcDisk(dirs: set<string>, rc: map<string, string>, readOnly: set<string>)

  function WriteFailed(path: string): string { "failed to save file \"" + path + "/.nvmdrc\"" }
  function RemoveFailed(path: string): string { "failed to remove \"" + path + "/.nvmdrc\"" }

  predicate Writable(disk: RcDisk, path: string) { path in disk.dirs && path !in disk.readOnly }

  /** `help::save_string(path/.nvmdrc, version)`. */
  function SaveRc(disk: RcDisk, path: string, version: string): (r: (Status, RcDisk))
    ensures r.0.Done? <==> Writable(disk, path)
    ensures r.0.Done? ==> r.1 == disk.(rc := disk.rc[path := version])
    ensures r.0.Failed? ==> r.1 == disk
  {
    if Writable(disk, path) then (Done, disk.(rc := disk.rc[path := version])) else (Failed(WriteFailed(path)), disk)
  }

  /** `update_project_version`: 404 and no write for a missing folder, otherwise the
      version is written and 200 returned. */
  function UpdateProjectVersion(disk: RcDisk, path: string, version: string): (r: (Result<int>, RcDisk))
    ensures path !in disk.dirs ==> r == (Ok(404), disk)
    ensures path in disk.dirs && path !in disk.readOnly ==> r == (Ok(200), disk.(rc := disk.rc[path := version]))
    ensures path in disk.dirs && path in disk.readOnly ==> r == (Err(WriteFailed(path)), disk)
  {
    if path !in disk.dirs then (Ok(404), disk)
    else
      var (s, d) := SaveRc(disk, path, version);
      if s.Failed? then (Err(s.error), d) else (Ok(200), d)
  }

  /** `update_projects`: deletes `path/.nvmdrc` first (a failure aborts), then applies the
      store and replaces and saves the committed list. */
  method UpdateProjects(projects: Draft<IProjects>, disk: RcDisk, list: seq<Project>, path: Option<string>, saved: Status)
    returns (r: Status, after: RcDisk)
    modifies projects
    ensures path.Some? && path.value !in disk.rc ==>
      r == Failed(RemoveFailed(path.value)) && after == disk && projects.State() == old(projects.State())
    ensures path.None? || path.value in disk.rc ==>
      && after == (if path.Some? then disk.(rc := disk.rc - {path.value}) else disk)
      && projects.State() == DataEdited(Applied(old(projects.State())).0, (p: IProjects) => IProjects(Some(list)))
      && r == saved
  {
    after := disk;
    if path.Some? {
      if path.value !in disk.rc {
        return Failed(RemoveFailed(path.value)), after;
      }
      after := disk.(rc := disk.rc - {path.value});
    }
    var _ := projects.Apply();
    projects.EditData((p: IProjects) => IProjects(Some(list)));
    r := saved;
  }

  /** All `.nvmdrc` writes of a batch, in order of the paths. */
  function WriteAll(disk: RcDisk, paths: seq<string>, version: string): RcDisk
    decreases |paths|
  {
    if paths == [] then disk
    else WriteAll(SaveRc(disk, paths[0], version).1, paths[1..], version)
  }

  /** `batch_update_project_version`: every write is attempted; the call fails iff one of
      them fails (reported here for the first such path). */
  method BatchUpdateProjectVersion(disk: RcDisk, paths: seq<string>, version: string) returns (r: Status, after: RcDisk)
    ensures after == WriteAll(disk, paths, version)
    ensures r.Done? <==> forall i :: 0 <= i < |paths| ==> Writable(disk, paths[i])
  {
    after := disk;
    r := Done;
    var i := 0;
    while i < |paths|
      invariant 0 <= i <= |paths|
      invariant WriteAll(disk, paths, version) == WriteAll(after, paths[i..], version)
      invariant after.dirs == disk.dirs && after.readOnly == disk.readOnly
      invariant r.Done? <==> forall j :: 0 <= j < i ==> Writable(disk, paths[j])
    {
      assert paths[i..][1..] == paths[i + 1..];
      var (s, d) := SaveRc(after, paths[i], version);
      if s.Failed? && r.Done? {
        r := s;
      }
      after := d;
      i := i + 1;
    }
  }

  /** A successful batch leaves the version in every listed folder. */
  lemma {:induction false} WriteAllWrites(disk: RcDisk, paths: seq<string>, version: string)
    requires forall i :: 0 <= i < |paths| ==> Writable(disk, paths[i])
    ensures forall i :: 0 <= i < |paths| ==>
      (paths[i] in WriteAll(disk, paths, version).rc && WriteAll(disk, paths, version).rc[paths[i]] == version)
    ensures forall q :: q in disk.rc && q !in paths ==>
      (q in WriteAll(disk, paths, version).rc && WriteAll(disk, paths, version).rc[q] == disk.rc[q])
    decreases |paths|
  {
    if paths != [] {
      var next := SaveRc(disk, paths[0], version).1;
      WriteAllWrites(next, paths[1..], version);
      forall i | 0 <= i < |paths| ensures paths[i] in WriteAll(disk, paths, version).rc
        && WriteAll(disk, paths, version).rc[paths[i]] == version {
        if i > 0 { assert paths[i] == paths[1..][i - 1]; }
        else if paths[0] !in paths[1..] {
          WriteAllKeeps(next, paths[1..], version, paths[0]);
        }
      }
    }
  }

  lemma {:induction false} WriteAllKeeps(disk: RcDisk, paths: seq<string>, version: string, q: string)
    requires q in disk.rc && q !in paths
    ensures q in WriteAll(disk, paths, version).rc && WriteAll(disk, paths, version).rc[q] == disk.rc[q]
    decreases |paths|
  {
    if paths != [] {
      assert q != paths[0];
      assert q !in paths[1..];
      WriteAllKeeps(SaveRc(disk, paths[0], version).1, paths[1..], version, q);
    }
  }

  // ---------------------------------------------------------------- change with version

  /** Every project called `name` gets the version. */
  function SetVersion(ps: seq<Project>, name: string, version: string): (r: seq<Project>)
    ensures |r| == |ps|
    ensures forall i :: 0 <= i < |ps| ==> r[i] == (if ps[i].name == name then ps[i].(version := Some(version)) else ps[i])
  {
    seq(|ps|, i requires 0 <= i < |ps| => if ps[i].name == name then ps[i].(version := Some(version)) else ps[i])
  }

  /** The path of the last project called `name`. */
  function LastPath(ps: seq<Project>, name: string): Option<string>
    decreases |ps|
  {
    if ps == [] then None
    else if ps[|ps| - 1].name == name then Some(ps[|ps| - 1].path)
    else LastPath(ps[..|ps| - 1], name)
  }

  /** There is a path exactly when some project has that name. */
  lemma {:induction false} LastPathIffNamed(ps: seq<Project>, name: string)
    ensures LastPath(ps, name).None? <==> forall i :: 0 <= i < |ps| ==> ps[i].name != name
    decreases |ps|
  {
    if ps != [] {
      var front := ps[..|ps| - 1];
      LastPathIffNamed(front, name);
      assert forall i :: 0 <= i < |front| ==> front[i] == ps[i];
    }
  }

  /** The `.nvmdrc` writes for the projects called `name`, stopping at the first error. */
  function WriteMatches(disk: RcDisk, ps: seq<Project>, name: string, version: string): (r: (Status, RcDisk))
    decreases |ps|
  {
    if ps == [] then (Done, disk)
    else if ps[0].name != name then WriteMatches(disk, ps[1..], name, version)
    else
      var (s, d) := UpdateProjectVersion(disk, ps[0].path, version);
      if s.Err? then (Failed(s.error), d) else WriteMatches(d, ps[1..], name, version)
  }

  /** `path` removed from every group holding it. */
  function DropPath(gs: seq<Group>, path: string): (r: seq<Group>)
    ensures |r| == |gs|
    ensures forall i :: 0 <= i < |gs| ==> r[i].name == gs[i].name && r[i].version == gs[i].version && path !in r[i].projects
    ensures forall i :: 0 <= i < |gs| && path !in gs[i].projects ==> r[i] == gs[i]
  {
    seq(|gs|, i requires 0 <= i < |gs| =>
      if path in gs[i].projects then gs[i].(projects := Without(gs[i].projects, path)) else gs[i])
  }

  predicate AnyHolds(gs: seq<Group>, path: string)
  {
    exists i :: 0 <= i < |gs| && path in gs[i].projects
  }

  /** `change_with_version`. `groupsSaved` and `projectsSaved` are the results of saving
      the two json files; the tray update's result is only logged. */
  method ChangeWithVersion(projects: Draft<IProjects>, groups: Draft<Groups>, disk: RcDisk, name: string, version: string,
                           groupsSaved: Status, projectsSaved: Status)
    returns (r: Status, after: RcDisk)
    modifies projects, groups
    ensures Latest(old(projects.State())).list.None? ==>
      r == Done && after == disk && projects.State() == old(projects.State()) && groups.State() == old(groups.State())
    ensures Latest(old(projects.State())).list.Some? ==>
      var ps := Latest(old(projects.State())).list.value;
      var (w, d) := WriteMatches(disk, ps, name, version);
      && after == d
      && (w.Failed? ==> r == w && projects.State() == old(projects.State()) && groups.State() == old(groups.State()))
      && (w.Done? ==>
            var path := LastPath(ps, name);
            var gl := Latest(old(groups.State())).list;
            var touch := path.Some? && gl.Some? && AnyHolds(gl.value, path.value);
            var edited := if touch then LatestEdited(old(groups.State()), (g: Groups) => Groups(Some(DropPath(gl.value, path.value)))) else old(groups.State());
            && (touch && groupsSaved.Failed? ==>
                  r == groupsSaved && groups.State() == edited && projects.State() == old(projects.State()))
            && (!touch || groupsSaved.Done? ==>
                  && groups.State() == (if touch then Applied(edited).0 else old(groups.State()))
                  && projects.State() == DataEdited(Applied(old(projects.State())).0,
                                                    (p: IProjects) => IProjects(Some(SetVersion(ps, name, version))))
                  && r == projectsSaved))
  {
    after := disk;
    var list := projects.Newest().list;
    if list.None? {
      return Done, after;
    }
    var ps := list.value;
    var w, out, projectPath;
    w, after, out, projectPath := WriteProjects(disk, ps, name, version);
    if w.Failed? {
      return w, after;
    }
    if projectPath.Some? {
      var gl := groups.Newest().list;
      if gl.Some? {
        var dropped, needUpdate := DropFromGroups(gl.value, projectPath.value);
        if needUpdate {
          groups.EditLatest((g: Groups) => Groups(Some(dropped)));
          if groupsSaved.Failed? {
            return groupsSaved, after;
          }
          var _ := groups.Apply();
        }
      }
    }
    var _ := projects.Apply();
    projects.EditData((p: IProjects) => IProjects(Some(out)));
    r := projectsSaved;
  }

  /** The loop of `change_with_version` over the projects: sets the version on each one
      called `name`, writes its `.nvmdrc` (the first failure returns at once) and keeps
      the last such path. */
  method WriteProjects(disk: RcDisk, ps: seq<Project>, name: string, version: string)
    returns (w: Status, after: RcDisk, out: seq<Project>, path: Option<string>)
    ensures (w, after) == WriteMatches(disk, ps, name, version)
    ensures w.Done? ==> out == SetVersion(ps, name, version) && path == LastPath(ps, name)
  {
    after := disk;
    out := [];
    path := None;
    var i := 0;
    while i < |ps|
      invariant 0 <= i <= |ps|
      invariant out == SetVersion(ps[..i], name, version)
      invariant path == LastPath(ps[..i], name)
      invariant WriteMatches(disk, ps, name, version) == WriteMatches(after, ps[i..], name, version)
    {
      ghost var before, outBefore, pathBefore := after, out, path;
      var project := ps[i];
      if project.name == name {
        path := Some(project.path);
        project := project.(version := Some(version));
        var (s, d) := UpdateProjectVersion(after, ps[i].path, version);
        if s.Err? {
          WriteFails(ps, i, name, version, after);
          return Failed(s.error), d, out, path;
        }
        after := d;
      }
      out := out + [project];
      i := i + 1;
      WriteOn(ps, i - 1, name, version, before, after, i);
      ProjectsOn(ps, i - 1, name, version, outBefore, out, pathBefore, path, i);
    }
    assert ps[..i] == ps;
    w := Done;
  }

  /** The write for a project called `name` fails: so does the rest of the loop. */
  lemma WriteFails(ps: seq<Project>, k: nat, name: string, version: string, disk: RcDisk)
    requires k < |ps| && ps[k].name == name
    requires UpdateProjectVersion(disk, ps[k].path, version).0.Err?
    ensures var (s, d) := UpdateProjectVersion(disk, ps[k].path, version);
      WriteMatches(disk, ps[k..], name, version) == (Failed(s.error), d)
  {
  }

  /** One project past, its write (if any) done: the rest of the loop writes the rest. */
  lemma WriteOn(ps: seq<Project>, k: nat, name: string, version: string, before: RcDisk, after: RcDisk, k': nat)
    requires k < |ps| && k' == k + 1
    requires ps[k].name == name ==>
      UpdateProjectVersion(before, ps[k].path, version).0.Ok? && after == UpdateProjectVersion(before, ps[k].path, version).1
    requires ps[k].name != name ==> after == before
    ensures WriteMatches(before, ps[k..], name, version) == WriteMatches(after, ps[k'..], name, version)
  {
    assert ps[k..][1..] == ps[k'..];
  }

  /** One project past: it is appended, versioned if called `name`, and its path is the
      last one seen if so. */
  lemma ProjectsOn(ps: seq<Project>, k: nat, name: string, version: string,
                   outBefore: seq<Project>, out: seq<Project>, pathBefore: Option<string>, path: Option<string>, k': nat)
    requires k < |ps| && k' == k + 1
    requires outBefore == SetVersion(ps[..k], name, version) && pathBefore == LastPath(ps[..k], name)
    requires out == outBefore + [if ps[k].name == name then ps[k].(version := Some(version)) else ps[k]]
    requires path == if ps[k].name == name then Some(ps[k].path) else pathBefore
    ensures out == SetVersion(ps[..k'], name, version) && path == LastPath(ps[..k'], name)
  {
    assert ps[..k'][..k] == ps[..k];
    assert out == SetVersion(ps[..k'], name, version);
  }

  /** The loop of `change_with_version` over the groups, with its `need_update` flag. */
  method DropFromGroups(gs: seq<Group>, path: string) returns (dropped: seq<Group>, needUpdate: bool)
    ensures dropped == DropPath(gs, path)
    ensures needUpdate <==> AnyHolds(gs, path)
  {
    dropped := [];
    needUpdate := false;
    var j := 0;
    while j < |gs|
      invariant 0 <= j <= |gs|
      invariant dropped == DropPath(gs[..j], path)
      invariant needUpdate <==> AnyHolds(gs[..j], path)
    {
      assert gs[..j + 1][..j] == gs[..j];
      var group := gs[j];
      if path in group.projects {
        needUpdate := true;
        group := group.(projects := Without(group.projects, path));
      }
      dropped := dropped + [group];
      j := j + 1;
    }
    assert gs[..j] == gs;
  }

  // ---------------------------------------------------------------- change with group

  /** Index of the first project called `name`, or the length. */
  function FirstNamed(ps: seq<Project>, name: string): (k: nat)
    ensures k <= |ps|
    ensures forall j :: 0 <= j < k ==> ps[j].name != name
    ensures k < |ps| ==> ps[k].name == name
    decreases |ps|
  {
    if ps == [] || ps[0].name == name then 0 else 1 + FirstNamed(ps[1..], name)
  }

  /** `change_with_group`: only the first project called `name` joins the group (its
      version becomes the group's name); its path leaves every group and joins each group
      called `groupName`. Nothing is persisted unless that group has a version. The three
      writes run together and the first failure, in the order listed, is returned. */
  method ChangeWithGroup(projects: Draft<IProjects>, groups: Draft<Groups>, disk: RcDisk, name: string, groupName: string,
                         groupsSaved: Status, projectsSaved: Status)
    returns (r: Status, after: RcDisk)
    modifies projects, groups
    ensures r.Failed? || r.Done?
    ensures var pl := Latest(old(projects.State())).list;
      var gl := Latest(old(groups.State())).list;
      (pl.None? || gl.None? || FirstNamed(pl.value, name) == |pl.value|) ==>
        r == Done && after == disk && projects.State() == old(projects.State()) && groups.State() == old(groups.State())
    ensures var pl := Latest(old(projects.State())).list;
      var gl := Latest(old(groups.State())).list;
      pl.Some? && gl.Some? && FirstNamed(pl.value, name) < |pl.value| ==>
        var k := FirstNamed(pl.value, name);
        var path := pl.value[k].path;
        var moved := seq(|gl.value|, i requires 0 <= i < |gl.value| => Regrouped(gl.value[i], path, groupName));
        var version := LastVersion(gl.value, groupName);
        && (version.None? ==> r == Done && after == disk && projects.State() == old(projects.State()) && groups.State() == old(groups.State()))
        && (version.Some? ==>
              var (v, d) := UpdateProjectVersion(disk, path, version.value);
              var edited := LatestEdited(old(groups.State()), (g: Groups) => Groups(Some(moved)));
              && after == d
              && groups.State() == (if groupsSaved.Done? then Applied(edited).0 else edited)
              && projects.State() == DataEdited(Applied(old(projects.State())).0,
                   (p: IProjects) => IProjects(Some(pl.value[k := pl.value[k].(version := Some(groupName))])))
              && r == (if v.Err? then Failed(v.error) else if groupsSaved.Failed? then groupsSaved else projectsSaved))
  {
    after := disk;
    var pl := projects.Newest().list;
    var gl := groups.Newest().list;
    if pl.None? || gl.None? {
      return Done, after;
    }
    var ps := pl.value;
    var k := 0;
    while k < |ps| && ps[k].name != name
      invariant 0 <= k <= |ps|
      invariant forall j :: 0 <= j < k ==> ps[j].name != name
    {
      k := k + 1;
    }
    assert k == FirstNamed(ps, name);
    if k == |ps| {
      return Done, after;
    }
    var path := ps[k].path;
    var newProjects := ps[k := ps[k].(version := Some(groupName))];
    var regrouped, version := UpdateProjectsVersion(Groups(gl), path, groupName);
    if version.None? {
      return Done, after;
    }
    var moved := regrouped.list.value;
    assert moved == seq(|gl.value|, i requires 0 <= i < |gl.value| => Regrouped(gl.value[i], path, groupName));
    var (v, d) := UpdateProjectVersion(after, path, version.value);
    after := d;
    groups.EditLatest((g: Groups) => Groups(Some(moved)));
    if groupsSaved.Done? {
      var _ := groups.Apply();
    }
    var _ := projects.Apply();
    projects.EditData((p: IProjects) => IProjects(Some(newProjects)));
    r := if v.Err? then Failed(v.error) else if groupsSaved.Failed? then groupsSaved else projectsSaved;
  }
}
