/** `core::node`: the current version, the version list, the installed list, installing
    (with its progress throttle and cancel slot) and uninstalling. The node store `INode`
    and the settings are `Draft`s; the disk, the clock, the network and the system tray
    are parameters. */
module CoreNode {
  import opened Wrappers
  import opened Semver
  import opened Drafts
  import opened Settings
  import opened Installed
  import VersionList

  /** A release from the version index (the fields the app uses). */
  datatype NVersion = NVersion(version: string, date: string, files: seq<string>)

  datatype INode = INode(current: Option<string>, list: Option<seq<NVersion>>, installed: Option<seq<string>>)

  const VersionNull := "version should not be null"
  const UnwrapNone := "called `Option::unwrap()` on a `None` value"
  const Unreachable := "internal error: entered unreachable code"

  // ---------------------------------------------------------------- current version

  /** `get_current`. Without `fetch` the newest value is read as it is. With it, the
      `default` file is synced into the newest value (`synced`: what it holds, or the
      error reading it), the draft applied, and the committed value returned. */
  method GetCurrent(node: Draft<INode>, fetch: Option<bool>, synced: Result<Option<string>>)
    returns (r: Result<Option<string>>)
    modifies node
    ensures !fetch.UnwrapOr(false) ==> r == Ok(Latest(old(node.State())).current) && node.State() == old(node.State())
    ensures fetch.UnwrapOr(false) && synced.Err? ==> r == Err(synced.error) && node.State() == old(node.State())
    ensures fetch.UnwrapOr(false) && synced.Ok? ==>
      && node.State() == Applied(LatestEdited(old(node.State()), (n: INode) => n.(current := synced.value))).0
      && r == Ok(synced.value)
  {
    if !fetch.UnwrapOr(false) {
      return Ok(node.Newest().current);
    }
    if synced.Err? {
      return Err(synced.error);
    }
    node.EditLatest((n: INode) => n.(current := synced.value));
    var _ := node.Apply();
    r := Ok(node.Data().current);
  }

  /** `set_current`: stores the version ("" for none) in the newest value, applies, and
      returns the result of writing the `default` file (`saved`). */
  method SetCurrent(node: Draft<INode>, version: Option<string>, saved: Status) returns (r: Status)
    modifies node
    ensures node.State() == Applied(LatestEdited(old(node.State()), (n: INode) => n.(current := Some(version.UnwrapOr(""))))).0
    ensures node.Data().current == Some(version.UnwrapOr("")) && node.State().pending.None?
    ensures r == saved
  {
    node.EditLatest((n: INode) => n.(current := Some(version.UnwrapOr(""))));
    var _ := node.Apply();
    r := saved;
  }

  /** `update_current_from_menu` as written: the tray update's result is dropped by the
      `wrap_err!` statement, so the block always yields Ok and the draft is always applied. */
  function MenuUpdate(s: Store<INode>, current: string, systray: Status, saved: Status): (Store<INode>, Status)
  {
    var d := Edited(s, (n: INode) => n.(current := Some(current)));
    (Applied(d).0, saved)
  }

  /** The evident intent: a failed tray update discards the draft and is returned. */
  function MenuUpdateIntended(s: Store<INode>, current: string, systray: Status, saved: Status): (r: (Store<INode>, Status))
    ensures systray.Failed? ==> r.0 == Store(s.committed, None) && r.1 == systray
    ensures systray.Done? ==> r.0 == Store(Latest(s).(current := Some(current)), None) && r.1 == saved
  {
    var d := Edited(s, (n: INode) => n.(current := Some(current)));
    if systray.Failed? then (Discarded(d).0, systray) else (Applied(d).0, saved)
  }

  /** The two differ exactly when the tray update fails: the code as written commits the
      new version and reports only the save. */
  lemma MenuFailureIgnored(s: Store<INode>, current: string, systray: Status, saved: Status)
    ensures MenuUpdate(s, current, systray, saved).0.committed.current == Some(current)
    ensures MenuUpdate(s, current, systray, saved).1 == saved
    ensures systray.Done? ==> MenuUpdate(s, current, systray, saved) == MenuUpdateIntended(s, current, systray, saved)
    ensures systray.Failed? && s.committed.current != Some(current) ==>
      MenuUpdate(s, current, systray, saved).0 != MenuUpdateIntended(s, current, systray, saved).0
  {
  }

  method UpdateCurrentFromMenu(node: Draft<INode>, current: string, systray: Status, saved: Status) returns (r: Status)
    modifies node
    ensures (node.State(), r) == MenuUpdate(old(node.State()), current, systray, saved)
  {
    var _ := node.EditDraft((n: INode) => n.(current := Some(current)));
    var _ := node.Apply();
    r := saved;
  }

  // ---------------------------------------------------------------- version list

  /** `get_version_list`: without `fetch`, the newest cached list; with it, the index is
      requested with the committed settings' mirror and proxy and no timeout (`fetched`
      is the answer), then the draft is applied and the list stored and saved. */
  method GetVersionList(node: Draft<INode>, settings: Draft<Settings>, fetch: Option<bool>,
                        fetched: Result<seq<NVersion>>, saved: Status)
    returns (r: Result<Option<seq<NVersion>>>, request: Option<VersionList.ListConfig>)
    modifies node
    ensures !fetch.UnwrapOr(false) ==>
      r == Ok(Latest(old(node.State())).list) && request.None? && node.State() == old(node.State())
    ensures fetch.UnwrapOr(false) ==>
      request == Some(VersionList.ListConfig(settings.committed.mirror, settings.committed.noProxy, settings.committed.proxy, None))
    ensures fetch.UnwrapOr(false) && fetched.Err? ==> r == Err(fetched.error) && node.State() == old(node.State())
    ensures fetch.UnwrapOr(false) && fetched.Ok? ==>
      && node.State() == DataEdited(Applied(old(node.State())).0, (n: INode) => n.(list := Some(fetched.value)))
      && r == (if saved.Failed? then Err(saved.error) else Ok(Some(fetched.value)))
  {
    if !fetch.UnwrapOr(false) {
      return Ok(node.Newest().list), None;
    }
    var s := settings.Data();
    request := Some(VersionList.ListConfig(s.mirror, s.noProxy, s.proxy, None));
    if fetched.Err? {
      return Err(fetched.error), request;
    }
    var _ := node.Apply();
    node.EditData((n: INode) => n.(list := Some(fetched.value)));
    if saved.Failed? {
      return Err(saved.error), request;
    }
    r := Ok(Some(fetched.value));
  }

  // ---------------------------------------------------------------- installed list

  predicate AllParse(names: seq<string>)
  {
    forall i :: 0 <= i < |names| ==> Parse(names[i]).Some?
  }

  /** The version a name stands for; names that do not parse never reach a comparison. */
  function Key(name: string): Version
  {
    if Parse(name).Some? then Parse(name).value else Version(0, 0, 0)
  }

  /** Newest first, as `sort_by(|a, b| compare(b, a))` orders them. */
  predicate SortedDesc(names: seq<string>)
  {
    forall i, j :: 0 <= i < j < |names| ==> Gte(Key(names[i]), Key(names[j]))
  }

  predicate AtLeastAll(v: Version, names: seq<string>)
  {
    forall j :: 0 <= j < |names| ==> Gte(v, Key(names[j]))
  }

  /** Insertion into a newest-first list, after every entry at least as new. */
  function InsertDesc(sorted: seq<string>, x: string): seq<string>
    decreases |sorted|
  {
    if sorted == [] then [x]
    else if Lt(Key(sorted[0]), Key(x)) then [x] + sorted
    else [sorted[0]] + InsertDesc(sorted[1..], x)
  }

  lemma {:induction false} InsertDescPerm(sorted: seq<string>, x: string)
    ensures multiset(InsertDesc(sorted, x)) == multiset(sorted) + multiset{x}
    decreases |sorted|
  {
    if sorted != [] && !Lt(Key(sorted[0]), Key(x)) {
      InsertDescPerm(sorted[1..], x);
      assert sorted == [sorted[0]] + sorted[1..];
    }
  }

  lemma {:induction false} InsertDescSorted(sorted: seq<string>, x: string)
    requires SortedDesc(sorted)
    ensures SortedDesc(InsertDesc(sorted, x))
    decreases |sorted|
  {
    if sorted == [] {
    } else if Lt(Key(sorted[0]), Key(x)) {
      SortedFromFirst(x, sorted);
    } else {
      var tail := sorted[1..];
      TailSorted(sorted);
      InsertDescSorted(tail, x);
      InsertDescPerm(tail, x);
      var rest := InsertDesc(tail, x);
      forall j | 0 <= j < |rest| ensures Gte(Key(sorted[0]), Key(rest[j])) {
        assert rest[j] in multiset(rest);
        if rest[j] != x {
          assert rest[j] in multiset(tail);
          var k :| 0 <= k < |tail| && tail[k] == rest[j];
          assert tail[k] == sorted[k + 1];
        } else {
          LtTotal(Key(sorted[0]), Key(x));
        }
      }
      ConsSorted(sorted[0], rest);
    }
  }

  lemma TailSorted(sorted: seq<string>)
    requires SortedDesc(sorted) && |sorted| > 0
    ensures SortedDesc(sorted[1..])
  {
    var tail := sorted[1..];
    forall i, j | 0 <= i < j < |tail| ensures Gte(Key(tail[i]), Key(tail[j])) {
      assert tail[i] == sorted[i + 1] && tail[j] == sorted[j + 1];
    }
  }

  lemma ConsSorted(a: string, rest: seq<string>)
    requires SortedDesc(rest) && AtLeastAll(Key(a), rest)
    ensures SortedDesc([a] + rest)
  {
    var r := [a] + rest;
    forall i, j | 0 <= i < j < |r| ensures Gte(Key(r[i]), Key(r[j])) {
      assert r[j] == rest[j - 1];
      if i > 0 { assert r[i] == rest[i - 1]; }
    }
  }

  lemma SortedFromFirst(x: string, sorted: seq<string>)
    requires SortedDesc(sorted) && |sorted| > 0
    requires Lt(Key(sorted[0]), Key(x))
    ensures SortedDesc([x] + sorted)
  {
    forall j | 0 <= j < |sorted| ensures Gte(Key(x), Key(sorted[j])) {
      if Lt(Key(x), Key(sorted[j])) {
        if j > 0 {
          assert Gte(Key(sorted[0]), Key(sorted[j]));
          LtTransitive(Key(sorted[0]), Key(x), Key(sorted[j]));
        } else {
          LtTransitive(Key(sorted[0]), Key(x), Key(sorted[0]));
          LtIrreflexive(Key(sorted[0]));
        }
      }
    }
    ConsSorted(x, sorted);
  }

  /** The descending sort. Comparing a name that is not a version hits `unreachable!`;
      with fewer than two names nothing is compared. */
  method SortDescending(names: seq<string>) returns (r: Result<seq<string>>)
    ensures r.Err? <==> |names| >= 2 && !AllParse(names)
    ensures r.Err? ==> r.error == Unreachable
    ensures r.Ok? ==> multiset(r.value) == multiset(names) && SortedDesc(r.value)
    ensures r.Ok? && |names| < 2 ==> r.value == names
  {
    if |names| < 2 {
      return Ok(names);
    }
    var i := 0;
    while i < |names|
      invariant 0 <= i <= |names|
      invariant AllParse(names[..i])
    {
      if Parse(names[i]).None? {
        UnparsedName(names, i);
        return Err(Unreachable);
      }
      i := i + 1;
      ParsedOn(names, i - 1, i);
    }
    assert names[..i] == names;
    var sorted: seq<string> := [];
    i := 0;
    while i < |names|
      invariant 0 <= i <= |names|
      invariant SortedDesc(sorted)
      invariant multiset(sorted) == multiset(names[..i])
    {
      ghost var before := sorted;
      sorted := InsertDesc(sorted, names[i]);
      i := i + 1;
      InsertedOn(names, i - 1, before, sorted, i);
    }
    assert names[..i] == names;
    r := Ok(sorted);
  }

  /** A name that is not a version: not every name parses. */
  lemma UnparsedName(names: seq<string>, i: nat)
    requires i < |names| && Parse(names[i]).None?
    ensures !AllParse(names)
  {
  }

  /** One more name checked that parses. */
  lemma ParsedOn(names: seq<string>, i: nat, i': nat)
    requires i < |names| && i' == i + 1
    requires AllParse(names[..i]) && Parse(names[i]).Some?
    ensures AllParse(names[..i'])
  {
    assert names[..i'] == names[..i] + [names[i]];
  }

  /** One more name inserted: the list stays sorted and holds the names so far. */
  lemma InsertedOn(names: seq<string>, i: nat, before: seq<string>, sorted: seq<string>, i': nat)
    requires i < |names| && i' == i + 1
    requires SortedDesc(before) && multiset(before) == multiset(names[..i])
    requires sorted == InsertDesc(before, names[i])
    ensures SortedDesc(sorted) && multiset(sorted) == multiset(names[..i'])
  {
    InsertDescSorted(before, names[i]);
    InsertDescPerm(before, names[i]);
    PrefixMultiset(names, i, i');
  }

  /** The names up to `i + 1` are those up to `i` and the name at `i`. */
  lemma PrefixMultiset(names: seq<string>, i: nat, i': nat)
    requires i < |names| && i' == i + 1
    ensures multiset(names[..i']) == multiset(names[..i]) + multiset{names[i]}
  {
    assert names[..i'] == names[..i] + [names[i]];
  }

  /** `get_installed_list`: with `fetch`, the entries of the newest settings' directory
      that hold a Node binary, newest first, stored in the newest value and applied. */
  method GetInstalledList(node: Draft<INode>, settings: Draft<Settings>, fetch: Option<bool>, disk: Disk, windows: bool)
    returns (r: Result<Option<seq<string>>>)
    modifies node
    ensures !fetch.UnwrapOr(false) ==> r == Ok(Latest(old(node.State())).installed) && node.State() == old(node.State())
    ensures fetch.UnwrapOr(false) ==>
      var dir := Latest(settings.State()).directory.UnwrapOr("");
      && (dir !in disk.listings ==> r == Ok(Some([])) && node.State() == old(node.State()))
      && (dir in disk.listings && disk.listings[dir].Err? ==> r == Err(disk.listings[dir].error) && node.State() == old(node.State()))
      && (dir in disk.listings && disk.listings[dir].Ok? ==>
            var kept := Keep(disk, dir, disk.listings[dir].value, windows);
            && (r.Err? <==> |kept| >= 2 && !AllParse(kept))
            && (r.Err? ==> r.error == Unreachable && node.State() == old(node.State()))
            && (r.Ok? ==>
                  && r.value.Some? && multiset(r.value.value) == multiset(kept) && SortedDesc(r.value.value)
                  && node.State() == Applied(LatestEdited(old(node.State()), (n: INode) => n.(installed := r.value))).0))
  {
    if !fetch.UnwrapOr(false) {
      return Ok(node.Newest().installed);
    }
    var dir := settings.Newest().directory.UnwrapOr("");
    if dir !in disk.listings {
      return Ok(Some([]));
    }
    var listing := disk.listings[dir];
    if listing.Err? {
      return Err(listing.error);
    }
    var versions := Collect(disk, dir, listing.value, windows);
    var sorted := SortDescending(versions);
    if sorted.Err? {
      return Err(sorted.error);
    }
    r := Ok(Some(sorted.value));
    node.EditLatest((n: INode) => n.(installed := r.value));
    var _ := node.Apply();
  }

  // ---------------------------------------------------------------- install

  /** The progress throttle: remembers when it last forwarded an event. */
  class Throttle {
    var last: int

    constructor(start: int)
      ensures last == start
    {
      last := start;
    }

    /** One progress event at time `now` (ms): forwarded iff 300 ms have passed. */
    method Offer(now: int) returns (emit: bool)
      modifies this
      ensures emit <==> now - old(last) >= 300
      ensures last == (if emit then now else old(last))
    {
      emit := now - last >= 300;
      if emit {
        last := now;
      }
    }
  }

  /** The times of the forwarded events, for events at `times` after a last emission at `last`. */
  function Forwarded(last: int, times: seq<int>): seq<int>
    decreases |times|
  {
    if times == [] then []
    else if times[0] - last >= 300 then [times[0]] + Forwarded(times[0], times[1..])
    else Forwarded(last, times[1..])
  }

  /** Forwarded events are events, at least 300 ms apart, the first at least 300 ms after
      the install started. */
  lemma {:induction false} ForwardedSpacing(last: int, times: seq<int>)
    ensures var f := Forwarded(last, times);
      && |f| <= |times|
      && (forall i :: 0 <= i < |f| ==> f[i] in times)
      && (|f| > 0 ==> f[0] - last >= 300)
      && (forall i :: 0 <= i < |f| - 1 ==> f[i + 1] - f[i] >= 300)
    decreases |times|
  {
    if times != [] {
      if times[0] - last >= 300 {
        ForwardedSpacing(times[0], times[1..]);
        var f := Forwarded(last, times);
        assert f == [times[0]] + Forwarded(times[0], times[1..]);
      } else {
        ForwardedSpacing(last, times[1..]);
      }
    }
  }

  /** Running the events through one throttle created at `start`. */
  method Throttled(start: int, times: seq<int>) returns (sent: seq<int>)
    ensures sent == Forwarded(start, times)
  {
    var throttle := new Throttle(start);
    sent := [];
    var i := 0;
    while i < |times|
      invariant 0 <= i <= |times|
      invariant Forwarded(start, times) == sent + Forwarded(throttle.last, times[i..])
    {
      assert times[i..][1..] == times[i + 1..];
      var emit := throttle.Offer(times[i]);
      if emit {
        sent := sent + [times[i]];
      }
      i := i + 1;
    }
  }

  /** The receiving end of a cancel channel. */
  class Watch {
    var cancelled: bool

    constructor()
      ensures !cancelled
    {
      cancelled := false;
    }
  }

  /** `CANCEL_SENDER`: the sender of the latest install, if any. */
  class CancelSlot {
    var sender: Option<Watch>

    constructor()
      ensures sender.None?
    {
      sender := None;
    }

    /** A new channel replaces whatever the slot held. */
    method Install() returns (receiver: Watch)
      modifies this
      ensures fresh(receiver) && !receiver.cancelled
      ensures sender == Some(receiver)
    {
      receiver := new Watch();
      sender := Some(receiver);
    }

    /** `install_node_cancel`: signals the stored channel if there is one; always Ok. */
    method Cancel() returns (r: Status)
      modifies if sender.Some? then {sender.value} else {}
      ensures r == Done
      ensures sender.Some? ==> sender.value.cancelled
    {
      if sender.Some? {
        sender.value.cancelled := true;
      }
      r := Done;
    }
  }

  /** With two installs in flight only the later one can be cancelled. */
  method CancelReachesLatestOnly(slot: CancelSlot) returns (first: Watch, second: Watch)
    modifies slot
    ensures !first.cancelled && second.cancelled
  {
    first := slot.Install();
    second := slot.Install();
    var _ := slot.Cancel();
  }

  datatype FetchConfig = FetchConfig(dest: string, mirror: string, arch: Option<string>, version: string,
                                     noProxy: Option<bool>, proxy: Option<Proxy>, timeoutMs: Option<nat>)

  /** `install_node` up to the fetch, whose result is `fetched`. */
  method InstallNode(version: Option<string>, arch: Option<string>, settings: Settings, slot: CancelSlot, fetched: Result<string>)
    returns (r: Result<string>, config: Option<FetchConfig>, receiver: Option<Watch>)
    modifies slot
    ensures version.None? ==> r == Err(VersionNull) && config.None? && slot.sender == old(slot.sender)
    ensures version.Some? && (settings.mirror.None? || settings.directory.None?) ==>
      r == Err(UnwrapNone) && config.None? && slot.sender == old(slot.sender)
    ensures version.Some? && settings.mirror.Some? && settings.directory.Some? ==>
      && config == Some(FetchConfig(settings.directory.value, settings.mirror.value, arch, version.value,
                                    settings.noProxy, settings.proxy, None))
      && r == fetched
      && receiver.Some? && fresh(receiver.value) && !receiver.value.cancelled && slot.sender == receiver
  {
    config, receiver := None, None;
    if version.None? {
      return Err(VersionNull), config, receiver;
    }
    if settings.mirror.None? || settings.directory.None? {
      return Err(UnwrapNone), config, receiver;
    }
    var w := slot.Install();
    receiver := Some(w);
    config := Some(FetchConfig(settings.directory.value, settings.mirror.value, arch, version.value,
                               settings.noProxy, settings.proxy, None));
    r := fetched;
  }

  // ---------------------------------------------------------------- uninstall

  /** `uninstall_node`, with `present` the directories that exist: both removals run,
      the version directory's error is reported first. */
  function UninstallNode(present: set<string>, directory: Option<string>, version: string, current: Option<bool>,
                         defaultPath: Result<string>): (r: (Status, set<string>))
    ensures directory.None? ==> r == (Done, present)
    ensures directory.Some? ==>
      var target := directory.value + "/" + version;
      && target !in r.1
      && (target !in present ==> r.0 == Failed("Failed to remove version directory: \"" + target + "\""))
      && (r.0.Done? <==> target in present && (current.UnwrapOr(false) ==> defaultPath.Ok? && defaultPath.value in present))
      && r.1 <= present
  {
    if directory.None? then (Done, present)
    else
      var target := directory.value + "/" + version;
      var afterVersion := present - {target};
      var versionStatus := if target in present then Done else Failed("Failed to remove version directory: \"" + target + "\"");
      if !current.UnwrapOr(false) then (versionStatus, afterVersion)
      else if defaultPath.Err? then (if versionStatus.Failed? then versionStatus else Failed(defaultPath.error), afterVersion)
      else
        var d := defaultPath.value;
        var currentStatus := if d in present then Done else Failed("Failed to remove the default file: \"" + d + "\"");
        (if versionStatus.Failed? then versionStatus else currentStatus, afterVersion - {d})
  }
}
