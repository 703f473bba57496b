/** The Electron back end's project and group stores (`src/main/utils/projects.ts` and
    `src/main/utils/groups.ts`): module-level caches over `projects.json`, `groups.json`
    and each project folder's `.nvmdrc`. File writes are taken to succeed. */
module ElectronStore {
  import opened Wrappers

  const CacheProjectsNotIterable := "cacheProjects is not iterable"
  const CacheGroupsUndefined := "Cannot read properties of undefined (reading 'forEach')"
  const CacheGroupsNotIterable := "cacheGroups is not iterable"

  datatype Project = Project(name: string, path: string, version: string, active: bool)

  datatype Group = Group(name: string, version: string, projects: seq<string>)

  /** The files the stores read and write. A json file is missing (None), unreadable or
      null (Some(None)), or a list. `rc` maps a project folder to its `.nvmdrc` text;
      `dirs` are the folders that exist. */
  class Disk {
    var projectsFile: Option<Option<seq<Project>>>
    var groupsFile: Option<Option<seq<Group>>>
    var rc: map<string, string>
    var dirs: set<string>

    constructor(projectsFile: Option<Option<seq<Project>>>, groupsFile: Option<Option<seq<Group>>>,
                rc: map<string, string>, dirs: set<string>)
      ensures this.projectsFile == projectsFile && this.groupsFile == groupsFile
      ensures this.rc == rc && this.dirs == dirs
    {
      this.projectsFile := projectsFile;
      this.groupsFile := groupsFile;
      this.rc := rc;
      this.dirs := dirs;
    }

    /** `getVersion`: the `.nvmdrc` text, '' when there is none. */
    function GetVersion(path: string): (r: string)
      reads this
      ensures path in rc ==> r == rc[path]
      ensures path !in rc ==> r == ""
    {
      if path in rc then rc[path] else ""
    }

    /** `syncProjectVersion`: 404 and no write for a missing folder; otherwise the folder's
        `.nvmdrc` becomes the version, and 200. */
    method SyncProjectVersion(path: string, version: string) returns (code: int)
      modifies this
      ensures path !in old(dirs) ==> code == 404 && rc == old(rc)
      ensures path in old(dirs) ==> code == 200 && rc == old(rc)[path := version]
      ensures projectsFile == old(projectsFile) && groupsFile == old(groupsFile) && dirs == old(dirs)
    {
      if path !in dirs {
        return 404;
      }
      rc := rc[path := version];
      return 200;
    }

    /** The `.nvmdrc` removal of `updateProjects` and `updateGroups`. */
    method RemoveRc(path: Option<string>)
      modifies this
      ensures rc == Unlinked(old(rc), path)
      ensures projectsFile == old(projectsFile) && groupsFile == old(groupsFile) && dirs == old(dirs)
    {
      if path.Some? && path.value != "" && path.value in rc {
        rc := map k | k in rc && k != path.value :: rc[k];
      }
    }
  }

  /** The `.nvmdrc` files after removing the one of `path`, when a non-empty path is given
      and the file exists. */
  function Unlinked(rc: map<string, string>, path: Option<string>): (r: map<string, string>)
    ensures path.None? || path.value == "" ==> r == rc
    ensures path.Some? && path.value != "" ==> r.Keys == rc.Keys - {path.value}
    ensures forall k :: k in r ==> k in rc && r[k] == rc[k]
  {
    if path.Some? && path.value != "" && path.value in rc then map k | k in rc && k != path.value :: rc[k] else rc
  }

  /** The `.nvmdrc` files after `syncProjectVersion(path, version)` for every path in
      turn: each existing folder gets the version. */
  function SyncAll(rc: map<string, string>, dirs: set<string>, paths: seq<string>, version: string): (r: map<string, string>)
    ensures forall k :: k in r <==> k in rc || (k in paths && k in dirs)
    ensures forall k :: k in r ==> r[k] == if k in paths && k in dirs then version else rc[k]
    decreases |paths|
  {
    if paths == [] then rc
    else
      var next := if paths[0] in dirs then rc[paths[0] := version] else rc;
      SyncAll(next, dirs, paths[1..], version)
  }

  /** Every cached project whose path is in the list takes the group's name as its
      version. */
  function Regrouped(ps: seq<Project>, paths: seq<string>, groupName: string): (r: seq<Project>)
    ensures |r| == |ps|
    ensures forall i :: 0 <= i < |ps| ==> r[i] == if ps[i].path in paths then ps[i].(version := groupName) else ps[i]
  {
    seq(|ps|, i requires 0 <= i < |ps| => if ps[i].path in paths then ps[i].(version := groupName) else ps[i])
  }

  /** The list `updateProjectsAndSync` leaves: a project whose folder is missing is
      inactive, the others are unchanged. */
  function Marked(ps: seq<Project>, dirs: set<string>): (r: seq<Project>)
    ensures |r| == |ps|
    ensures forall i :: 0 <= i < |ps| ==> r[i] == if ps[i].path in dirs then ps[i] else ps[i].(active := false)
  {
    seq(|ps|, i requires 0 <= i < |ps| => if ps[i].path in dirs then ps[i] else ps[i].(active := false))
  }

  /** The `.nvmdrc` writes of `updateProjectsAndSync` with `sync` set: each project in an
      existing folder writes its version, later projects of the same folder last. */
  function SyncEach(rc: map<string, string>, dirs: set<string>, ps: seq<Project>): (r: map<string, string>)
    ensures forall k :: k in rc ==> k in r
    ensures forall k :: k in r ==> k in rc || exists i :: 0 <= i < |ps| && ps[i].path == k && k in dirs
    decreases |ps|
  {
    if ps == [] then rc
    else
      var rest := SyncEach(rc, dirs, ps[..|ps| - 1]);
      var last := ps[|ps| - 1];
      assert forall i :: 0 <= i < |ps| - 1 ==> ps[..|ps| - 1][i] == ps[i];
      if last.path in dirs then rest[last.path := last.version] else rest
  }

  /** The module cache of `projects.ts`. */
  class ProjectsCache {
    var cacheProjects: Option<seq<Project>>

    constructor()
      ensures cacheProjects.None?
    {
      cacheProjects := None;
    }

    /** `getProjects`: the cache unless `load`; a missing file gives [] and leaves the
        cache alone; a null file reads as [], which is cached. */
    method GetProjects(load: bool, disk: Disk) returns (r: seq<Project>)
      modifies this
      ensures old(cacheProjects).Some? && !load ==> r == old(cacheProjects).value && cacheProjects == old(cacheProjects)
      ensures (old(cacheProjects).None? || load) && disk.projectsFile.None? ==> r == [] && cacheProjects == old(cacheProjects)
      ensures (old(cacheProjects).None? || load) && disk.projectsFile.Some? ==>
        r == disk.projectsFile.value.UnwrapOr([]) && cacheProjects == Some(r)
    {
      if cacheProjects.Some? && !load {
        return cacheProjects.value;
      }
      if disk.projectsFile.None? {
        return [];
      }
      r := disk.projectsFile.value.UnwrapOr([]);
      cacheProjects := Some(r);
    }

    /** `updateProjects`: the `.nvmdrc` of `path` goes, then the list is written and
        cached. */
    method UpdateProjects(projects: seq<Project>, path: Option<string>, disk: Disk)
      modifies this, disk
      ensures disk.rc == Unlinked(old(disk.rc), path)
      ensures disk.projectsFile == Some(Some(projects)) && cacheProjects == Some(projects)
      ensures disk.groupsFile == old(disk.groupsFile) && disk.dirs == old(disk.dirs)
    {
      disk.RemoveRc(path);
      disk.projectsFile := Some(Some(projects));
      cacheProjects := Some(projects);
    }

    /** `updateProjectsAndSync`: a project whose folder is missing becomes inactive; with
        `sync` the others write their version to `.nvmdrc`. The list is cached and
        written. */
    method UpdateProjectsAndSync(projects: seq<Project>, sync: bool, disk: Disk) returns (r: seq<Project>)
      modifies this, disk
      ensures r == Marked(projects, old(disk.dirs))
      ensures disk.rc == if sync then SyncEach(old(disk.rc), old(disk.dirs), projects) else old(disk.rc)
      ensures cacheProjects == Some(r) && disk.projectsFile == Some(Some(r))
      ensures disk.groupsFile == old(disk.groupsFile) && disk.dirs == old(disk.dirs)
    {
      r := projects;
      var index := 0;
      while index < |projects|
        invariant 0 <= index <= |projects|
        invariant |r| == |projects|
        invariant r[..index] == Marked(projects[..index], disk.dirs)
        invariant r[index..] == projects[index..]
        invariant disk.rc == if sync then SyncEach(old(disk.rc), disk.dirs, projects[..index]) else old(disk.rc)
        invariant disk.groupsFile == old(disk.groupsFile) && disk.dirs == old(disk.dirs)
        invariant disk.projectsFile == old(disk.projectsFile)
      {
        assert projects[..index + 1][..index] == projects[..index];
        var p := projects[index];
        if p.path !in disk.dirs {
          r := r[index := p.(active := false)];
        } else if sync {
          disk.rc := disk.rc[p.path := p.version];
        }
        index := index + 1;
      }
      assert projects[..|projects|] == projects;
      cacheProjects := Some(r);
      disk.projectsFile := Some(Some(r));
    }

    /** `updateProjectAndSyncVersion`: copying an undefined cache throws before anything
        happens; otherwise every path gets its `.nvmdrc`, every cached project in the list
        takes the group's name, and the new list is cached and written. */
    method UpdateProjectAndSyncVersion(paths: seq<string>, groupName: string, version: string, disk: Disk)
      returns (r: Result<seq<Project>>)
      modifies this, disk
      ensures old(cacheProjects).None? ==>
        (r == Err(CacheProjectsNotIterable) && cacheProjects == old(cacheProjects)
         && disk.rc == old(disk.rc) && disk.projectsFile == old(disk.projectsFile))
      ensures old(cacheProjects).Some? ==> var next := Regrouped(old(cacheProjects).value, paths, groupName);
        && r == Ok(next) && cacheProjects == Some(next) && disk.projectsFile == Some(Some(next))
        && disk.rc == SyncAll(old(disk.rc), old(disk.dirs), paths, version)
      ensures disk.groupsFile == old(disk.groupsFile) && disk.dirs == old(disk.dirs)
    {
      if cacheProjects.None? {
        return Err(CacheProjectsNotIterable);
      }
      var newProjects := cacheProjects.value;
      var i := 0;
      while i < |paths|
        invariant 0 <= i <= |paths|
        invariant SyncAll(disk.rc, disk.dirs, paths[i..], version) == SyncAll(old(disk.rc), old(disk.dirs), paths, version)
        invariant cacheProjects == old(cacheProjects)
        invariant newProjects == Regrouped(cacheProjects.value, paths[..i], groupName)
        invariant disk.groupsFile == old(disk.groupsFile) && disk.dirs == old(disk.dirs)
        invariant disk.projectsFile == old(disk.projectsFile)
      {
        assert paths[i..][1..] == paths[i + 1..];
        var _ := disk.SyncProjectVersion(paths[i], version);
        newProjects := Regrouped(newProjects, [paths[i]], groupName);
        RegroupedStep(cacheProjects.value, paths[..i], paths[i], groupName);
        assert paths[..i + 1] == paths[..i] + [paths[i]];
        i := i + 1;
      }
      assert paths[..|paths|] == paths;
      cacheProjects := Some(newProjects);
      disk.projectsFile := Some(Some(newProjects));
      return Ok(newProjects);
    }
  }

  /** Regrouping by one more path is regrouping the result by that path. */
  lemma RegroupedStep(ps: seq<Project>, paths: seq<string>, path: string, groupName: string)
    ensures Regrouped(Regrouped(ps, paths, groupName), [path], groupName) == Regrouped(ps, paths + [path], groupName)
  {
  }

  /** `createGroup` as written: the filter's `projects` is the other group's own list,
      so every existing group is emptied once the new group has projects. */
  function ClearedAsWritten(gs: seq<Group>, paths: seq<string>): (r: seq<Group>)
    ensures |r| == |gs|
  {
    seq(|gs|, i requires 0 <= i < |gs| =>
      gs[i].(projects := FilterOut(gs[i].projects, gs[i].projects)))
  }

  /** The paths of `xs` not in `drop`, in order. */
  function FilterOut(xs: seq<string>, drop: seq<string>): (r: seq<string>)
    ensures forall x :: x in r <==> x in xs && x !in drop
    ensures |r| <= |xs|
  {
    if xs == [] then []
    else if xs[0] in drop then FilterOut(xs[1..], drop)
    else [xs[0]] + FilterOut(xs[1..], drop)
  }

  /** As written, every existing group ends up with no projects. */
  lemma ClearedAsWrittenEmpties(gs: seq<Group>, paths: seq<string>)
    ensures forall i :: 0 <= i < |gs| ==> ClearedAsWritten(gs, paths)[i].projects == []
  {
    forall i | 0 <= i < |gs|
      ensures ClearedAsWritten(gs, paths)[i].projects == []
    {
      FilterOutCovered(gs[i].projects, gs[i].projects);
    }
  }

  /** Filtering out a list that covers every path leaves nothing. */
  lemma {:induction false} FilterOutCovered(xs: seq<string>, drop: seq<string>)
    requires forall x :: x in xs ==> x in drop
    ensures FilterOut(xs, drop) == []
  {
    if xs != [] {
      FilterOutCovered(xs[1..], drop);
    }
  }

  /** Filtering out nothing keeps the list. */
  lemma {:induction false} FilterOutNothing(xs: seq<string>)
    ensures FilterOut(xs, []) == xs
  {
    if xs != [] {
      FilterOutNothing(xs[1..]);
    }
  }

  /** A group holding a project the new group does not name still loses it. */
  lemma ClearedAsWrittenCounterexample()
    ensures ClearedAsWritten([Group("a", "18.0.0", ["/work/x"])], ["/work/y"])[0].projects == []
  {
    ClearedAsWrittenEmpties([Group("a", "18.0.0", ["/work/x"])], ["/work/y"]);
  }

  /** The evident intent: each existing group drops only the paths the new group takes. */
  function Pruned(gs: seq<Group>, paths: seq<string>): (r: seq<Group>)
    ensures |r| == |gs|
    ensures forall i :: 0 <= i < |gs| ==> r[i].name == gs[i].name && r[i].version == gs[i].version
    ensures forall i, x :: 0 <= i < |gs| ==> (x in r[i].projects <==> x in gs[i].projects && x !in paths)
  {
    seq(|gs|, i requires 0 <= i < |gs| => gs[i].(projects := FilterOut(gs[i].projects, paths)))
  }

  /** After the corrected `createGroup`, a path of the new group belongs to no other
      group, and the other groups keep every path it does not take. */
  lemma PrunedSeparates(gs: seq<Group>, group: Group)
    ensures var r := [group] + Pruned(gs, group.projects);
      forall i, x :: 1 <= i < |r| && x in group.projects ==> x !in r[i].projects
    ensures forall i, x :: 0 <= i < |gs| && x in gs[i].projects && x !in group.projects ==>
      x in Pruned(gs, group.projects)[i].projects
  {
    var r := [group] + Pruned(gs, group.projects);
    forall i, x | 1 <= i < |r| && x in group.projects
      ensures x !in r[i].projects
    {
      assert r[i] == Pruned(gs, group.projects)[i - 1];
    }
  }

  /** The groups `createGroup` writes as written: the new group first, then the existing
      groups (emptied when the new group has projects); an undefined cache throws. */
  function CreateGroupAsWritten(cache: Option<seq<Group>>, group: Group): (r: Result<seq<Group>>)
    ensures cache.None? ==> r.Err?
    ensures cache.Some? && group.projects != [] ==>
      r == Ok([group] + ClearedAsWritten(cache.value, group.projects))
  {
    if cache.None? then
      Err(if group.projects != [] then CacheGroupsUndefined else CacheGroupsNotIterable)
    else if group.projects != [] then Ok([group] + ClearedAsWritten(cache.value, group.projects))
    else Ok([group] + cache.value)
  }

  /** The groups the corrected `createGroup` writes. */
  function CreatedGroups(cache: Option<seq<Group>>, group: Group): (r: Result<seq<Group>>)
    ensures cache.None? ==> r.Err?
    ensures cache.Some? ==> r == Ok([group] + Pruned(cache.value, group.projects))
  {
    if cache.None? then
      Err(if group.projects != [] then CacheGroupsUndefined else CacheGroupsNotIterable)
    else Ok([group] + Pruned(cache.value, group.projects))
  }

  /** Without projects the two agree: the new group is prepended to the groups as they
      are. */
  lemma CreateGroupNoProjects(cache: seq<Group>, group: Group)
    requires group.projects == []
    ensures CreateGroupAsWritten(Some(cache), group) == CreatedGroups(Some(cache), group) == Ok([group] + cache)
  {
    forall i | 0 <= i < |cache|
      ensures Pruned(cache, [])[i] == cache[i]
    {
      FilterOutNothing(cache[i].projects);
    }
    assert Pruned(cache, []) == cache;
  }

  /** Every group called `name` takes the version; the others are unchanged. */
  function Versioned(gs: seq<Group>, name: string, version: string): (r: seq<Group>)
    ensures |r| == |gs|
    ensures forall i :: 0 <= i < |gs| ==> r[i] == if gs[i].name == name then gs[i].(version := version) else gs[i]
  {
    seq(|gs|, i requires 0 <= i < |gs| => if gs[i].name == name then gs[i].(version := version) else gs[i])
  }

  /** The module cache of `groups.ts`. */
  class GroupsCache {
    var cacheGroups: Option<seq<Group>>

    constructor()
      ensures cacheGroups.None?
    {
      cacheGroups := None;
    }

    /** `getGroups`: the cache unless `load`; a missing file caches and returns []; a null
        file reads as [], which is cached. */
    method GetGroups(load: bool, disk: Disk) returns (r: seq<Group>)
      modifies this
      ensures old(cacheGroups).Some? && !load ==> r == old(cacheGroups).value && cacheGroups == old(cacheGroups)
      ensures (old(cacheGroups).None? || load) && disk.groupsFile.None? ==> r == [] && cacheGroups == Some([])
      ensures (old(cacheGroups).None? || load) && disk.groupsFile.Some? ==>
        r == disk.groupsFile.value.UnwrapOr([]) && cacheGroups == Some(r)
    {
      if cacheGroups.Some? && !load {
        return cacheGroups.value;
      }
      if disk.groupsFile.None? {
        cacheGroups := Some([]);
        return [];
      }
      r := disk.groupsFile.value.UnwrapOr([]);
      cacheGroups := Some(r);
    }

    /** `createGroup`, with the pruning its comment describes: a new group with projects
        and a version first syncs those projects; then the new group is prepended to the
        (pruned) groups, which are written and cached. */
    method CreateGroup(group: Group, projects: ProjectsCache, disk: Disk) returns (r: Status)
      modifies this, projects, disk
      ensures old(projects.cacheProjects).None? && group.projects != [] && group.version != "" ==>
        r == Failed(CacheProjectsNotIterable) && cacheGroups == old(cacheGroups) && disk.groupsFile == old(disk.groupsFile)
      ensures (old(projects.cacheProjects).Some? || group.projects == [] || group.version == "") ==>
        && (CreatedGroups(old(cacheGroups), group).Err? ==>
             (r == Failed(CreatedGroups(old(cacheGroups), group).error)
              && cacheGroups == old(cacheGroups) && disk.groupsFile == old(disk.groupsFile)))
        && (CreatedGroups(old(cacheGroups), group).Ok? ==>
             (r == Done && cacheGroups == Some(CreatedGroups(old(cacheGroups), group).value)
              && disk.groupsFile == Some(cacheGroups)))
      // the sync of the group's projects, when it runs
      ensures old(projects.cacheProjects).Some? && group.projects != [] && group.version != "" ==>
        var next := Regrouped(old(projects.cacheProjects).value, group.projects, group.name);
        && projects.cacheProjects == Some(next) && disk.projectsFile == Some(Some(next))
        && disk.rc == SyncAll(old(disk.rc), old(disk.dirs), group.projects, group.version)
      ensures old(projects.cacheProjects).None? || group.projects == [] || group.version == "" ==>
        && projects.cacheProjects == old(projects.cacheProjects) && disk.rc == old(disk.rc)
        && disk.projectsFile == old(disk.projectsFile)
      ensures disk.dirs == old(disk.dirs)
    {
      if group.projects != [] && group.version != "" {
        var synced := projects.UpdateProjectAndSyncVersion(group.projects, group.name, group.version, disk);
        if synced.Err? {
          return Failed(synced.error);
        }
      }
      var created := CreatedGroups(cacheGroups, group);
      if created.Err? {
        return Failed(created.error);
      }
      disk.groupsFile := Some(Some(created.value));
      cacheGroups := Some(created.value);
      return Done;
    }

    /** `updateGroups`: the `.nvmdrc` of `path` goes, then the list is written and cached. */
    method UpdateGroups(groups: seq<Group>, path: Option<string>, disk: Disk)
      modifies this, disk
      ensures disk.rc == Unlinked(old(disk.rc), path)
      ensures disk.groupsFile == Some(Some(groups)) && cacheGroups == Some(groups)
      ensures disk.projectsFile == old(disk.projectsFile) && disk.dirs == old(disk.dirs)
    {
      disk.RemoveRc(path);
      disk.groupsFile := Some(Some(groups));
      cacheGroups := Some(groups);
    }

    /** `updateGroupVersion`: each project of the group gets the version in its
        `.nvmdrc`; then every cached group of that name takes the version, and the list is
        cached and written (copying an undefined cache throws, after the writes). */
    method UpdateGroupVersion(group: Group, version: string, disk: Disk) returns (r: Result<seq<Group>>)
      modifies this, disk
      ensures disk.rc == SyncAll(old(disk.rc), old(disk.dirs), group.projects, version)
      ensures old(cacheGroups).None? ==>
        (r == Err(CacheGroupsNotIterable) && cacheGroups == old(cacheGroups) && disk.groupsFile == old(disk.groupsFile))
      ensures old(cacheGroups).Some? ==> var next := Versioned(old(cacheGroups).value, group.name, version);
        r == Ok(next) && cacheGroups == Some(next) && disk.groupsFile == Some(Some(next))
      ensures disk.projectsFile == old(disk.projectsFile) && disk.dirs == old(disk.dirs)
    {
      var i := 0;
      while i < |group.projects|
        invariant 0 <= i <= |group.projects|
        invariant SyncAll(disk.rc, disk.dirs, group.projects[i..], version) == SyncAll(old(disk.rc), old(disk.dirs), group.projects, version)
        invariant cacheGroups == old(cacheGroups)
        invariant disk.groupsFile == old(disk.groupsFile) && disk.dirs == old(disk.dirs)
        invariant disk.projectsFile == old(disk.projectsFile)
      {
        assert group.projects[i..][1..] == group.projects[i + 1..];
        var _ := disk.SyncProjectVersion(group.projects[i], version);
        i := i + 1;
      }
      if cacheGroups.None? {
        return Err(CacheGroupsNotIterable);
      }
      var newGroups := Versioned(cacheGroups.value, group.name, version);
      cacheGroups := Some(newGroups);
      disk.groupsFile := Some(Some(newGroups));
      return Ok(newGroups);
    }
  }
}
