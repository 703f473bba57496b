/** `node::list`: the older variant of the installed-list command. It reads the committed
    settings' directory (which must be set), keeps the entries holding a Node binary in
    listing order, applies the node store and then replaces the committed list. */
module NodeList {
  import opened Wrappers
  import opened Drafts
  import opened Settings
  import opened Installed
  import Strings
  import opened CoreNode

  const DirectoryNull := "directory should not be null"

  /** `get_installed_list`. `update_installed` only replaces the committed list in
      memory and always returns `Ok`, so its `?` never fails. */
  method GetInstalledList(node: Draft<INode>, settings: Draft<Settings>, fetch: Option<bool>, disk: Disk, windows: bool)
    returns (r: Result<Option<seq<string>>>)
    modifies node
    ensures !fetch.UnwrapOr(false) ==> r == Ok(Latest(old(node.State())).installed) && node.State() == old(node.State())
    ensures fetch.UnwrapOr(false) && settings.Data().directory.None? ==>
      r == Err(DirectoryNull) && node.State() == old(node.State())
    ensures fetch.UnwrapOr(false) && settings.Data().directory.Some? ==>
      var dir := settings.Data().directory.value;
      && (dir !in disk.listings ==> r == Ok(Some([])) && node.State() == old(node.State()))
      && (dir in disk.listings && disk.listings[dir].Err? ==> r == Err(disk.listings[dir].error) && node.State() == old(node.State()))
      && (dir in disk.listings && disk.listings[dir].Ok? ==>
            var kept := Keep(disk, dir, disk.listings[dir].value, windows);
            && node.State() == DataEdited(Applied(old(node.State())).0, (n: INode) => n.(installed := Some(kept)))
            && r == Ok(Some(kept)))
  {
    if !fetch.UnwrapOr(false) {
      return Ok(node.Newest().installed);
    }
    var directory := settings.Data().directory;
    if directory.None? {
      return Err(DirectoryNull);
    }
    var dir := directory.value;
    if dir !in disk.listings {
      return Ok(Some([]));
    }
    var listing := disk.listings[dir];
    if listing.Err? {
      return Err(listing.error);
    }
    var versions := Collect(disk, dir, listing.value, windows);
    var _ := node.Apply();
    node.EditData((n: INode) => n.(installed := Some(versions)));
    r := Ok(Some(versions));
  }

  /** Unlike the `core::node` variant, this one does not sort: the stored list is the
      listing's own order, and the two agree on which entries are kept. */
  lemma ListingOrderKept(disk: Disk, dir: string, names: seq<string>, windows: bool, x: string)
    ensures x in Keep(disk, dir, names, windows) <==> x in names && HasNode(disk, dir, x, windows)
    ensures Strings.Subsequence(Keep(disk, dir, names, windows), names)
  {
    KeepInOrder(disk, dir, names, windows);
    if x in names && HasNode(disk, dir, x, windows) {
      KeepComplete(disk, dir, names, windows, x);
    }
  }
}
