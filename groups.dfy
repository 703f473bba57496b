/** `config::groups`: named groups of project paths that share a Node version. `IGroups`
    is held by value inside a `Draft`, so its `&mut self` methods are methods returning
    the new record; their loops are kept. */
module Groups {
  import opened Wrappers

  datatype Group = Group(name: string, desc: Option<string>, projects: seq<string>, version: Option<string>)

  datatype Groups = Groups(list: Option<seq<Group>>)

  /** A group as serde reads it: a missing `projects` field becomes the empty list. */
  function DecodeGroup(name: string, desc: Option<string>, projects: Option<seq<string>>, version: Option<string>): (g: Group)
    ensures projects.None? ==> g.projects == []
    ensures projects.Some? ==> g.projects == projects.value
    ensures g.name == name && g.desc == desc && g.version == version
  {
    Group(name, desc, projects.UnwrapOr([]), version)
  }

  const Template := Groups(Some([]))

  /** `new`: the groups file as read, or the empty template. */
  function Load(file: Result<seq<Group>>): (g: Groups)
    ensures g.list.Some?
    ensures file.Ok? ==> g.list.value == file.value
    ensures file.Err? ==> g.list.value == []
  {
    if file.Ok? then Groups(Some(file.value)) else Template
  }

  /** `retain(|p| p != path)`. */
  function Without(ps: seq<string>, path: string): (r: seq<string>)
    ensures path !in r
    ensures forall q :: q in r ==> q in ps
    decreases |ps|
  {
    if ps == [] then []
    else if ps[0] == path then Without(ps[1..], path)
    else [ps[0]] + Without(ps[1..], path)
  }

  /** `retain` keeps every other path, as often as it occurred and in order. */
  lemma {:induction false} WithoutKeepsOthers(ps: seq<string>, path: string)
    ensures forall q :: q != path ==> multiset(Without(ps, path))[q] == multiset(ps)[q]
    ensures path !in ps ==> Without(ps, path) == ps
    decreases |ps|
  {
    if ps != [] {
      WithoutKeepsOthers(ps[1..], path);
      assert ps == [ps[0]] + ps[1..];
    }
  }

  /** Index of the first group containing `path`, or the length when none does. */
  function FirstWith(list: seq<Group>, path: string): (k: nat)
    ensures k <= |list|
    ensures forall j :: 0 <= j < k ==> path !in list[j].projects
    ensures k < |list| ==> path in list[k].projects
    decreases |list|
  {
    if list == [] then 0
    else if path in list[0].projects then 0
    else 1 + FirstWith(list[1..], path)
  }

  /** `update_projects`: drop `path` from the first group holding it only. */
  method UpdateProjects(g: Groups, path: string) returns (r: Groups, found: bool)
    ensures r.list.Some?
    ensures var list := g.list.UnwrapOr([]);
      && (found <==> exists j :: 0 <= j < |list| && path in list[j].projects)
      && (found ==> var k := FirstWith(list, path);
            r.list.value == list[k := list[k].(projects := Without(list[k].projects, path))])
      && (!found ==> r.list.value == list)
  {
    var list := g.list.UnwrapOr([]);
    var i := 0;
    while i < |list|
      invariant 0 <= i <= |list|
      invariant forall j :: 0 <= j < i ==> path !in list[j].projects
    {
      if path in list[i].projects {
        assert FirstWith(list, path) == i;
        var each := list[i].(projects := Without(list[i].projects, path));
        return Groups(Some(list[i := each])), true;
      }
      i := i + 1;
    }
    return Groups(Some(list)), false;
  }

  /** One group after `update_projects_version`: `path` leaves it, and comes back at the
      end if the group is the named one. */
  function Regrouped(each: Group, path: string, name: string): Group
  {
    var left := if path in each.projects then each.(projects := Without(each.projects, path)) else each;
    if each.name == name then left.(projects := left.projects + [path]) else left
  }

  /** The version of the last group called `name`, if any. */
  function LastVersion(list: seq<Group>, name: string): Option<string>
    decreases |list|
  {
    if list == [] then None
    else if list[|list| - 1].name == name then list[|list| - 1].version
    else LastVersion(list[..|list| - 1], name)
  }

  /** No group of that name means no version. */
  lemma {:induction false} NoGroupNoVersion(list: seq<Group>, name: string)
    requires forall j :: 0 <= j < |list| ==> list[j].name != name
    ensures LastVersion(list, name).None?
    decreases |list|
  {
    if list != [] {
      NoGroupNoVersion(list[..|list| - 1], name);
    }
  }

  /** `update_projects_version`: moves `path` into every group called `name`. */
  method UpdateProjectsVersion(g: Groups, path: string, name: string) returns (r: Groups, version: Option<string>)
    ensures r.list.Some?
    ensures var list := g.list.UnwrapOr([]);
      && |r.list.value| == |list|
      && (forall j :: 0 <= j < |list| ==> r.list.value[j] == Regrouped(list[j], path, name))
      && version == LastVersion(list, name)
  {
    var list := g.list.UnwrapOr([]);
    var out: seq<Group> := [];
    version := None;
    var i := 0;
    while i < |list|
      invariant 0 <= i <= |list|
      invariant |out| == i
      invariant forall j :: 0 <= j < i ==> out[j] == Regrouped(list[j], path, name)
      invariant version == LastVersion(list[..i], name)
    {
      var each := list[i];
      if path in each.projects {
        each := each.(projects := Without(each.projects, path));
      }
      if each.name == name {
        version := each.version;
        each := each.(projects := each.projects + [path]);
      }
      assert list[..i + 1][..i] == list[..i];
      out := out + [each];
      i := i + 1;
    }
    assert list[..i] == list;
    r := Groups(Some(out));
  }

  /** After the move, `path` is in exactly the groups called `name`, once each and last;
      every other project of every group is kept as it was. */
  lemma RegroupedMembership(each: Group, path: string, name: string)
    ensures var after := Regrouped(each, path, name);
      && after.name == each.name && after.version == each.version && after.desc == each.desc
      && (path in after.projects <==> each.name == name)
      && (each.name == name ==> multiset(after.projects)[path] == 1 && after.projects[|after.projects| - 1] == path)
      && forall q :: q != path ==> multiset(after.projects)[q] == multiset(each.projects)[q]
  {
    WithoutKeepsOthers(each.projects, path);
    var left := if path in each.projects then Without(each.projects, path) else each.projects;
    assert path !in left;
    assert multiset(left)[path] == 0;
  }

  /** A group neither holding `path` nor called `name` comes through unchanged. */
  lemma RegroupedUntouched(each: Group, path: string, name: string)
    requires path !in each.projects && each.name != name
    ensures Regrouped(each, path, name) == each
  {
  }

  /** `update_list`: replaces the list in memory. */
  function UpdateList(g: Groups, list: seq<Group>): (r: Groups)
    ensures r.list == Some(list)
  {
    Groups(Some(list))
  }

  /** `update_groups`: replaces the list and returns the result of saving it. */
  function UpdateGroups(g: Groups, list: seq<Group>, saved: Status): (r: (Groups, Status))
    ensures r.0.list == Some(list) && r.1 == saved
  {
    (Groups(Some(list)), saved)
  }
}
