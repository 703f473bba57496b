/** `archive::tarball::Tarball`: downloads a `.tar.gz` from its URL into a temporary file
    named after the archive, unpacks every entry under `dest`, then removes the temporary
    file. Both phases report to the same two-argument callback (done, total). The type
    only provides `archive_basename` for macOS on Apple Silicon, so that is its target. */
module Tarball {
  import opened Wrappers
  import opened FsModel
  import opened Transfer

  datatype Tarball = Tarball(url: string, version: string, dest: Path)

  /** One item of the entry stream: whether it could be read (`entry?`), its header size
      (`None`: `header().size()?` fails), its path, whether it is a directory, and whether
      the tar library's `unpack_in` succeeds for it. */
  datatype TarEntry = TarEntry(readable: bool, size: Option<nat>, path: Path, isDir: bool, unpacks: bool)

  /** One callback call: (bytes done, total). */
  datatype Progress = Progress(done: nat, total: nat)

  const EntryUnreadable := "failed to iterate over archive"
  const BadHeaderSize := "invalid size in header"
  const UnpackFailed := "failed to unpack"

  /** `archive_basename` as written: always the native arm64 build. */
  function ArchiveBasename(tb: Tarball): string
  {
    "node-v" + tb.version + "-darwin-arm64"
  }

  /** `archive_filename`: the basename with the distro extension; also the temporary file. */
  function ArchiveFilename(tb: Tarball): string
  {
    ArchiveBasename(tb) + ".tar.gz"
  }

  /** The temporary file's name determines the version, so two versions never share it. */
  lemma ArchiveFilenameDetermines(tb1: Tarball, tb2: Tarball)
    requires ArchiveFilename(tb1) == ArchiveFilename(tb2)
    ensures tb1.version == tb2.version
  {
    var f := ArchiveFilename(tb1);
    assert |tb1.version| == |tb2.version|;
    assert tb1.version == f[6..6 + |tb1.version|];
    assert tb2.version == ArchiveFilename(tb2)[6..6 + |tb2.version|];
  }

  /** `unpack_in(dest)`: entries whose path climbs out with `..`, and entries with no path
      component at all (their target would be `dest` itself), are skipped without error;
      otherwise the library either fails or places the entry, creating its parents. */
  function UnpackIn(fs: Fs, dest: Path, e: TarEntry): Effect
  {
    var target := dest + e.path;
    if ".." in e.path || e.path == [] then Effect(Done, fs)
    else if !e.unpacks then Effect(Failed(UnpackFailed), fs)
    else
      var up := CreateDirAll(fs, Parent(target));
      if up.status.Failed? then up
      else Effect(Done, up.fs[target := if e.isDir then Dir else File(e.size.UnwrapOr(0))])
  }

  datatype Unpacking = Unpacking(status: Status, fs: Fs, events: seq<Progress>)

  /** Unpacking entries `i..` having counted `done` header bytes so far. */
  function UnpackFrom(fs: Fs, dest: Path, es: seq<TarEntry>, i: nat, done: nat, total: nat): Unpacking
    requires i <= |es|
    decreases |es| - i
  {
    if i == |es| then Unpacking(Done, fs, [])
    else
      var e := es[i];
      if !e.readable then Unpacking(Failed(EntryUnreadable), fs, [])
      else if e.size.None? then Unpacking(Failed(BadHeaderSize), fs, [])
      else
        var step := UnpackIn(fs, dest, e);
        if step.status.Failed? then Unpacking(step.status, step.fs, [])
        else
          var rest := UnpackFrom(step.fs, dest, es, i + 1, done + e.size.value, total);
          Unpacking(rest.status, rest.fs, [Progress(done + e.size.value, total)] + rest.events)
  }

  method Unpack(fs0: Fs, dest: Path, es: seq<TarEntry>, total: nat) returns (u: Unpacking)
    ensures u == UnpackFrom(fs0, dest, es, 0, 0, total)
  {
    var fs := fs0;
    var events: seq<Progress> := [];
    var unpacked: nat := 0;
    var i := 0;
    ghost var whole := UnpackFrom(fs0, dest, es, 0, 0, total);
    assert UnpackedSoFar(whole, fs, dest, es, i, unpacked, total, events);
    while i < |es|
      invariant 0 <= i <= |es|
      invariant UnpackedSoFar(whole, fs, dest, es, i, unpacked, total, events)
    {
      var e := es[i];
      if !e.readable {
        return Unpacking(Failed(EntryUnreadable), fs, events);
      }
      if e.size.None? {
        return Unpacking(Failed(BadHeaderSize), fs, events);
      }
      var step := UnpackIn(fs, dest, e);
      if step.status.Failed? {
        return Unpacking(step.status, step.fs, events);
      }
      ghost var fsBefore, unpackedBefore, eventsBefore := fs, unpacked, events;
      fs := step.fs;
      unpacked := unpacked + e.size.value;
      events := events + [Progress(unpacked, total)];
      i := i + 1;
      UnpackOn(whole, fsBefore, dest, es, i - 1, unpackedBefore, total, eventsBefore, fs, unpacked, events, i);
    }
    u := Unpacking(Done, fs, events);
  }

  /** What the loop of `unpack` keeps: the events so far followed by the unpacking of
      entries `i..` from `fs`, having counted `done` bytes, make up the whole unpacking. */
  ghost predicate UnpackedSoFar(whole: Unpacking, fs: Fs, dest: Path, es: seq<TarEntry>, i: nat, done: nat, total: nat,
                                events: seq<Progress>)
  {
    i <= |es| &&
    var rest := UnpackFrom(fs, dest, es, i, done, total);
    whole == Unpacking(rest.status, rest.fs, events + rest.events)
  }

  /** Entry `i` unpacked: the loop goes on from the next one with its event added. */
  lemma UnpackOn(whole: Unpacking, fs: Fs, dest: Path, es: seq<TarEntry>, i: nat, done: nat, total: nat,
                 events: seq<Progress>, fs': Fs, done': nat, events': seq<Progress>, i': nat)
    requires UnpackedSoFar(whole, fs, dest, es, i, done, total, events) && i < |es| && i' == i + 1
    requires es[i].readable && es[i].size.Some? && UnpackIn(fs, dest, es[i]).status.Done?
    requires fs' == UnpackIn(fs, dest, es[i]).fs && done' == done + es[i].size.value
    requires events' == events + [Progress(done', total)]
    ensures UnpackedSoFar(whole, fs', dest, es, i', done', total, events')
  {
    var rest := UnpackFrom(fs', dest, es, i', done', total);
    assert events + ([Progress(done', total)] + rest.events) == events' + rest.events;
  }

  /** Sum of the header sizes of entries `i..j`. */
  function HeaderBytes(es: seq<TarEntry>, i: nat, j: nat): nat
    requires i <= j <= |es|
    decreases j - i
  {
    if i == j then 0 else es[i].size.UnwrapOr(0) + HeaderBytes(es, i + 1, j)
  }

  /** What the unpack callback receives from entry `i` on: one event per entry unpacked,
      all of them exactly when unpacking runs through, each the running sum of header
      sizes measured against `total`. */
  ghost predicate Reported(u: Unpacking, es: seq<TarEntry>, i: nat, done: nat, total: nat)
    requires i <= |es|
  {
    && |u.events| <= |es| - i
    && (u.status.Done? <==> |u.events| == |es| - i)
    && forall j :: 0 <= j < |u.events| ==> u.events[j] == Progress(done + HeaderBytes(es, i, i + j + 1), total)
  }

  /** The unpack callback receives the running sum of header sizes, measured against the
      compressed length rather than against the sum of all entries. */
  lemma {:induction false} UnpackEvents(fs: Fs, dest: Path, es: seq<TarEntry>, i: nat, done: nat, total: nat)
    requires i <= |es|
    ensures Reported(UnpackFrom(fs, dest, es, i, done, total), es, i, done, total)
    decreases |es| - i
  {
    if i < |es| && es[i].readable && es[i].size.Some? && UnpackIn(fs, dest, es[i]).status.Done? {
      UnpackEvents(UnpackIn(fs, dest, es[i]).fs, dest, es, i + 1, done + es[i].size.value, total);
      ReportedStep(fs, dest, es, i, done, total);
    } else {
      ReportedStop(fs, dest, es, i, done, total);
    }
  }

  /** Unpacking stops at the end of the entries or at entry `i`: no event is reported
      from there, and the status says whether the end was reached. */
  lemma ReportedStop(fs: Fs, dest: Path, es: seq<TarEntry>, i: nat, done: nat, total: nat)
    requires i <= |es|
    requires !(i < |es| && es[i].readable && es[i].size.Some? && UnpackIn(fs, dest, es[i]).status.Done?)
    ensures Reported(UnpackFrom(fs, dest, es, i, done, total), es, i, done, total)
  {
  }

  /** Entry `i` unpacked: what is reported for the entries after it carries over. */
  lemma ReportedStep(fs: Fs, dest: Path, es: seq<TarEntry>, i: nat, done: nat, total: nat)
    requires i < |es| && es[i].readable && es[i].size.Some? && UnpackIn(fs, dest, es[i]).status.Done?
    requires Reported(UnpackFrom(UnpackIn(fs, dest, es[i]).fs, dest, es, i + 1, done + es[i].size.value, total),
                      es, i + 1, done + es[i].size.value, total)
    ensures Reported(UnpackFrom(fs, dest, es, i, done, total), es, i, done, total)
  {
    var rest := UnpackFrom(UnpackIn(fs, dest, es[i]).fs, dest, es, i + 1, done + es[i].size.value, total);
    UnpackedOne(fs, dest, es, i, done, total);
    ShiftedEvents(es, i, done, total, rest.events);
  }

  /** The events of entries `i + 1..` reported from `done + size`, behind the event of
      entry `i`, are the events of entries `i..` reported from `done`. */
  lemma ShiftedEvents(es: seq<TarEntry>, i: nat, done: nat, total: nat, rest: seq<Progress>)
    requires i < |es| && es[i].size.Some? && |rest| < |es| - i
    requires forall j :: 0 <= j < |rest| ==>
      rest[j] == Progress(done + es[i].size.value + HeaderBytes(es, i + 1, i + 1 + j + 1), total)
    ensures var events := [Progress(done + es[i].size.value, total)] + rest;
      forall j :: 0 <= j < |events| ==> events[j] == Progress(done + HeaderBytes(es, i, i + j + 1), total)
  {
    var events := [Progress(done + es[i].size.value, total)] + rest;
    forall j | 0 <= j < |events| ensures events[j] == Progress(done + HeaderBytes(es, i, i + j + 1), total) {
      if j > 0 {
        assert events[j] == rest[j - 1];
      }
    }
  }

  /** An entry unpacked: its event, then those of the entries after it. */
  lemma UnpackedOne(fs: Fs, dest: Path, es: seq<TarEntry>, i: nat, done: nat, total: nat)
    requires i < |es| && es[i].readable && es[i].size.Some?
    requires UnpackIn(fs, dest, es[i]).status.Done?
    ensures var rest := UnpackFrom(UnpackIn(fs, dest, es[i]).fs, dest, es, i + 1, done + es[i].size.value, total);
      UnpackFrom(fs, dest, es, i, done, total)
        == Unpacking(rest.status, rest.fs, [Progress(done + es[i].size.value, total)] + rest.events)
  {
  }

  /** An entry that would escape `dest` through `..` is skipped, but its size still counts. */
  lemma EscapingEntrySkipped(fs: Fs, dest: Path, e: TarEntry)
    requires ".." in e.path
    ensures UnpackIn(fs, dest, e) == Effect(Done, fs)
  {
  }

  /** The download phase's callback calls: one per chunk written, with the running count. */
  function DownloadEvents(counts: seq<nat>, total: nat): (r: seq<Progress>)
    ensures |r| == |counts|
    ensures forall i :: 0 <= i < |r| ==> r[i] == Progress(counts[i], total)
  {
    seq(|counts|, i requires 0 <= i < |counts| => Progress(counts[i], total))
  }

  /** `fetch`, run from working directory `cwd` (the temporary file path is relative).
      The steps fail in order: the request, the status, the length, creating the
      temporary file, a chunk's read or write, opening the entry stream, an entry, and
      the removal of the temporary file; each failure is returned as it is. */
  method Fetch(tb: Tarball, cwd: Path, send: Result<Response>, entries: Option<seq<TarEntry>>, fs0: Fs)
    returns (r: Status, events: seq<Progress>, fs: Fs)
    ensures send.Err? ==> r == Failed(send.error) && events == [] && fs == fs0
    ensures send.Ok? && !IsSuccess(send.value.status) ==>
      r == Failed("HTTP failure (" + send.value.statusText + ")") && events == [] && fs == fs0
    ensures send.Ok? && IsSuccess(send.value.status) && send.value.contentLength.None? ==>
      r == Failed("Failed to get content length") && events == [] && fs == fs0
    ensures send.Ok? && IsSuccess(send.value.status) && send.value.contentLength.Some? ==>
      var temp := cwd + [ArchiveFilename(tb)];
      var created := Create(fs0, temp);
      var body := send.value.body;
      var total := send.value.contentLength.value;
      var k := GoodPrefix(body);
      && (created.status.Failed? ==> r == created.status && events == [] && fs == fs0)
      && (created.status.Done? && !AllStored(body) ==>
            && r == StoreStatus(body)
            && events == DownloadEvents(Sums(body[..k]), total)
            && fs == (if k == 0 && StoredSize(body) == 0 then created.fs else created.fs[temp := File(StoredSize(body))]))
      && (created.status.Done? && AllStored(body) ==>
            var downloaded := created.fs[temp := File(Sum(body))];
            && (entries.None? ==>
                  r == Failed(EntryUnreadable) && events == DownloadEvents(Sums(body), total) && fs == downloaded)
            && (entries.Some? ==>
                  var u := UnpackFrom(downloaded, tb.dest, entries.value, 0, 0, total);
                  var removed := RemoveFile(u.fs, temp);
                  // download counts, then unpack counts, through the same callback
                  && events == DownloadEvents(Sums(body), total) + u.events
                  && (u.status.Failed? ==> r == u.status && fs == u.fs)
                  && (u.status.Done? && removed.status.Failed? ==> r == removed.status && fs == u.fs)
                  && (u.status.Done? && removed.status.Done? ==> r == Done && fs == removed.fs)))
    // success needs every step, the removal of the temporary file included
    ensures r.Done? <==>
      && send.Ok? && IsSuccess(send.value.status) && send.value.contentLength.Some?
      && var temp := cwd + [ArchiveFilename(tb)];
         var created := Create(fs0, temp);
         && created.status.Done? && AllStored(send.value.body) && entries.Some?
         && var u := UnpackFrom(created.fs[temp := File(Sum(send.value.body))], tb.dest, entries.value, 0, 0,
                                send.value.contentLength.value);
            u.status.Done? && RemoveFile(u.fs, temp).status.Done?
    // a failure after the temporary file was created leaves it on the disk
    ensures r.Failed? && send.Ok? && IsSuccess(send.value.status) && send.value.contentLength.Some? ==>
      var temp := cwd + [ArchiveFilename(tb)];
      Create(fs0, temp).status.Done? ==> temp in fs
  {
    events := [];
    fs := fs0;
    if send.Err? {
      return Failed(send.error), events, fs;
    }
    var response := send.value;
    if !IsSuccess(response.status) {
      return Failed("HTTP failure (" + response.statusText + ")"), events, fs;
    }
    if response.contentLength.None? {
      return Failed("Failed to get content length"), events, fs;
    }
    var total := response.contentLength.value;
    var temp := cwd + [ArchiveFilename(tb)];
    var created := Create(fs, temp);
    if created.status.Failed? {
      return created.status, events, fs;
    }
    var status, downloaded, counts, written := WriteChunks(created.fs, temp, response.body);
    fs := written;
    events := DownloadEvents(counts, total);
    if status.Failed? {
      return status, events, fs;
    }
    StoredWhole(response.body);
    assert response.body[..|response.body|] == response.body;
    if entries.None? {
      return Failed(EntryUnreadable), events, fs;
    }
    assert fs == created.fs[temp := File(Sum(response.body))] by {
      if |response.body| == 0 { assert created.fs[temp] == File(0); }
    }
    var u := Unpack(fs, tb.dest, entries.value, total);
    events := events + u.events;
    UnpackKeeps(fs, tb.dest, entries.value, 0, 0, total, temp);
    if u.status.Failed? {
      return u.status, events, u.fs;
    }
    var removed := RemoveFile(u.fs, temp);
    if removed.status.Failed? {
      return removed.status, events, u.fs;
    }
    r, fs := Done, removed.fs;
  }

  /** Unpacking never deletes: the temporary file (or anything else) stays where it was,
      unless an entry overwrites that very path. */
  lemma {:induction false} UnpackKeeps(fs: Fs, dest: Path, es: seq<TarEntry>, i: nat, done: nat, total: nat, q: Path)
    requires i <= |es|
    requires q in fs
    ensures q in UnpackFrom(fs, dest, es, i, done, total).fs
    decreases |es| - i
  {
    if i < |es| && es[i].readable && es[i].size.Some? {
      var step := UnpackIn(fs, dest, es[i]);
      if step.status.Done? {
        UnpackKeeps(step.fs, dest, es, i + 1, done + es[i].size.value, total, q);
      }
    }
  }

  /** The temporary name ignores the version's major: the comment's x64 fallback for majors
      before 16 is not implemented, unlike `Node::archive_basename`. */
  lemma NoFallbackBeforeSixteen()
    ensures ArchiveBasename(Tarball("", "15.2.3", [])) == "node-v15.2.3-darwin-arm64"
  {
  }
}
