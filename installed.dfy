/** Which subdirectories of the install directory hold a Node installation: the loop that
    `help::read_installed` and both `get_installed_list`s share. The disk is given as the
    listing of each existing directory (or the error reading it) and the set of existing
    files. Paths are joined with '/'. */
module Installed {
  import opened Wrappers
  import opened Strings

  datatype Disk = Disk(listings: map<string, Result<seq<string>>>, files: set<string>)

  /** `<dir>/<name>/node.exe` on Windows, `<dir>/<name>/bin/node` elsewhere. */
  function BinaryPath(dir: string, name: string, windows: bool): string
  {
    dir + "/" + name + (if windows then "/node.exe" else "/bin/node")
  }

  predicate HasNode(disk: Disk, dir: string, name: string, windows: bool)
  {
    BinaryPath(dir, name, windows) in disk.files
  }

  /** The entries that hold a Node binary, in listing order. */
  function Keep(disk: Disk, dir: string, names: seq<string>, windows: bool): (r: seq<string>)
    ensures |r| <= |names|
    ensures forall x :: x in r ==> x in names && HasNode(disk, dir, x, windows)
    decreases |names|
  {
    if names == [] then []
    else
      var rest := Keep(disk, dir, names[..|names| - 1], windows);
      if HasNode(disk, dir, names[|names| - 1], windows) then rest + [names[|names| - 1]] else rest
  }

  /** Nothing with a binary is left out. */
  lemma {:induction false} KeepComplete(disk: Disk, dir: string, names: seq<string>, windows: bool, x: string)
    requires x in names && HasNode(disk, dir, x, windows)
    ensures x in Keep(disk, dir, names, windows)
    decreases |names|
  {
    if x != names[|names| - 1] {
      assert names == names[..|names| - 1] + [names[|names| - 1]];
      KeepComplete(disk, dir, names[..|names| - 1], windows, x);
    }
  }

  /** The kept entries keep their listing order. */
  lemma {:induction false} KeepInOrder(disk: Disk, dir: string, names: seq<string>, windows: bool)
    ensures Subsequence(Keep(disk, dir, names, windows), names)
    decreases |names|
  {
    if names != [] {
      var init := names[..|names| - 1];
      KeepInOrder(disk, dir, init, windows);
      SubsequenceSnoc(Keep(disk, dir, init, windows), init, names[|names| - 1]);
      assert init + [names[|names| - 1]] == names;
    } else {
      assert Keep(disk, dir, names, windows) == [];
    }
  }

  /** The `for entry in read_dir` / `while let Some(entry)` loop, pushing kept names. */
  method Collect(disk: Disk, dir: string, names: seq<string>, windows: bool) returns (versions: seq<string>)
    ensures versions == Keep(disk, dir, names, windows)
  {
    versions := [];
    var i := 0;
    while i < |names|
      invariant 0 <= i <= |names|
      invariant versions == Keep(disk, dir, names[..i], windows)
    {
      assert names[..i + 1][..i] == names[..i];
      if HasNode(disk, dir, names[i], windows) {
        versions := versions + [names[i]];
      }
      i := i + 1;
    }
    assert names[..i] == names;
  }

  /** `help::read_installed`: a missing directory gives the empty list, an unreadable one
      its error, otherwise the kept entries. */
  method ReadInstalled(disk: Disk, dir: string, windows: bool) returns (r: Result<seq<string>>)
    ensures dir !in disk.listings ==> r == Ok([])
    ensures dir in disk.listings && disk.listings[dir].Err? ==> r == Err(disk.listings[dir].error)
    ensures dir in disk.listings && disk.listings[dir].Ok? ==>
      r == Ok(Keep(disk, dir, disk.listings[dir].value, windows))
  {
    if dir !in disk.listings {
      return Ok([]);
    }
    var listing := disk.listings[dir];
    if listing.Err? {
      return Err(listing.error);
    }
    var versions := Collect(disk, dir, listing.value, windows);
    r := Ok(versions);
  }
}
