/** `archive::zip::fetch`: downloads `node-v<version>-<os>-<arch>.zip` from a mirror into
    `dest`, extracts every entry under `dest`, renames the extracted folder to the version
    and removes the archive. Progress goes to a callback as (stage, done, total); here the
    calls are returned as a sequence. */
module ZipFetch {
  import opened Wrappers
  import opened Semver
  import opened Distro
  import opened NodeArchive
  import opened FsModel
  import opened Transfer

  /** One entry of the zip's central directory: its name as path components (`None` when
      the name is not valid UTF-8, which also makes `entry.dir()` fail), whether it is a
      directory, whether its data reader opens, its uncompressed size, and, when copying
      its data into the new file fails (a corrupt entry, a full disk), the number of
      bytes copied before that. */
  datatype ZipEntry = ZipEntry(name: Option<Path>, isDir: bool, readerOk: bool, size: nat, copyBroken: Option<nat>)

  datatype Progress = Progress(stage: string, done: nat, total: nat)

  const InvalidVersion := "invalid version"
  const InvalidFilename := "invalid UTF-8 in entry filename"
  const ReaderFailed := "cannot read entry"
  const CopyFailed := "failed to copy entry data"
  const NoParent := "called `Option::unwrap()` on a `None` value"
  const MalformedArchive := "invalid zip archive"

  function DownloadUrl(mirror: string, version: string, fullName: string): string
  {
    mirror + "/v" + version + "/" + fullName
  }

  /** On one mirror the URL names its version directory and its file: a version without
      '/' can be read back from it, and so can the file name. */
  lemma DownloadUrlDetermines(mirror: string, v1: string, f1: string, v2: string, f2: string)
    requires '/' !in v1 && '/' !in v2
    requires DownloadUrl(mirror, v1, f1) == DownloadUrl(mirror, v2, f2)
    ensures v1 == v2 && f1 == f2
  {
    var c := |mirror| + 2;
    var a, b := v1 + "/" + f1, v2 + "/" + f2;
    assert DownloadUrl(mirror, v1, f1)[c..] == a;
    assert DownloadUrl(mirror, v2, f2)[c..] == b;
    FirstSlash(v1, f1);
    FirstSlash(v2, f2);
    assert |v1| == |v2|;
    assert v1 == a[..|v1|] && v2 == b[..|v2|];
    assert f1 == a[|v1| + 1..] && f2 == b[|v2| + 1..];
  }

  /** In `v/f`, with no '/' in `v`, the first '/' follows `v`. */
  lemma FirstSlash(v: string, f: string)
    requires '/' !in v
    ensures (v + "/" + f)[|v|] == '/'
    ensures forall j :: 0 <= j < |v| ==> (v + "/" + f)[j] != '/'
  {
    forall j | 0 <= j < |v| ensures (v + "/" + f)[j] != '/' {
      assert (v + "/" + f)[j] == v[j];
    }
  }

  function DownloadEvents(counts: seq<nat>, total: nat): (r: seq<Progress>)
    ensures |r| == |counts|
    ensures forall i :: 0 <= i < |r| ==> r[i] == Progress("download", counts[i], total)
  {
    seq(|counts|, i requires 0 <= i < |counts| => Progress("download", counts[i], total))
  }

  /** What extracting one entry does to the disk. */
  function ExtractEntry(fs: Fs, dest: Path, e: ZipEntry): Effect
  {
    if e.name.None? then Effect(Failed(InvalidFilename), fs)
    else if !e.readerOk then Effect(Failed(ReaderFailed), fs)
    else
      var path := dest + e.name.value;
      if e.isDir then
        (if path in fs then Effect(Done, fs) else CreateDirAll(fs, path))
      else if |path| == 0 then Effect(Failed(NoParent), fs)
      else
        var up := if IsDir(fs, Parent(path)) then Effect(Done, fs) else CreateDirAll(fs, Parent(path));
        if up.status.Failed? then up
        else
          var made := CreateNew(up.fs, path, Copied(e));
          if made.status.Failed? || e.copyBroken.None? then made else Effect(Failed(CopyFailed), made.fs)
  }

  /** The bytes of an entry that reach its file: all of them, or those copied before the
      copy failed. */
  function Copied(e: ZipEntry): nat
  {
    if e.copyBroken.Some? then e.copyBroken.value else e.size
  }

  /** A file entry whose data cannot be copied fails after its file is created, which
      stays behind with what was copied. */
  lemma BrokenCopyFails(fs: Fs, dest: Path, e: ZipEntry)
    requires e.name.Some? && e.readerOk && !e.isDir && e.copyBroken.Some?
    requires |dest + e.name.value| > 0 && dest + e.name.value !in fs && IsDir(fs, Parent(dest + e.name.value))
    ensures ExtractEntry(fs, dest, e) == Effect(Failed(CopyFailed), fs[dest + e.name.value := File(e.copyBroken.value)])
  {
  }

  datatype Extraction = Extraction(status: Status, fs: Fs, events: seq<Progress>)

  /** Extracting entries `i..` in index order; the first failure stops the loop, and
      every entry that succeeded is reported as ("unzip", index + 1, total). */
  function ExtractFrom(fs: Fs, dest: Path, es: seq<ZipEntry>, i: nat): Extraction
    requires i <= |es|
    decreases |es| - i
  {
    if i == |es| then Extraction(Done, fs, [])
    else
      var step := ExtractEntry(fs, dest, es[i]);
      if step.status.Failed? then Extraction(step.status, step.fs, [])
      else
        var rest := ExtractFrom(step.fs, dest, es, i + 1);
        Extraction(rest.status, rest.fs, [Progress("unzip", i + 1, |es|)] + rest.events)
  }

  method Unzip(fs0: Fs, dest: Path, es: seq<ZipEntry>) returns (x: Extraction)
    ensures x == ExtractFrom(fs0, dest, es, 0)
  {
    var fs := fs0;
    var events: seq<Progress> := [];
    var index := 0;
    ghost var whole := ExtractFrom(fs0, dest, es, 0);
    assert ExtractedSoFar(whole, fs, dest, es, index, events);
    while index < |es|
      invariant 0 <= index <= |es|
      invariant ExtractedSoFar(whole, fs, dest, es, index, events)
    {
      var step := ExtractEntry(fs, dest, es[index]);
      if step.status.Failed? {
        ExtractStops(whole, fs, dest, es, index, events);
        return Extraction(step.status, step.fs, events);
      }
      ghost var fsBefore, eventsBefore := fs, events;
      fs := step.fs;
      events := events + [Progress("unzip", index + 1, |es|)];
      index := index + 1;
      ExtractOn(whole, fsBefore, dest, es, index - 1, eventsBefore, fs, events, index);
    }
    ExtractEnds(whole, fs, dest, es, events);
    x := Extraction(Done, fs, events);
  }

  /** What the loop of `unzip` keeps: the events so far followed by the extraction of
      entries `i..` from `fs` make up the whole extraction. */
  ghost predicate ExtractedSoFar(whole: Extraction, fs: Fs, dest: Path, es: seq<ZipEntry>, i: nat, events: seq<Progress>)
  {
    i <= |es| &&
    var rest := ExtractFrom(fs, dest, es, i);
    whole == Extraction(rest.status, rest.fs, events + rest.events)
  }

  /** Entry `i` extracted: the loop goes on from the next one with its event added. */
  lemma ExtractOn(whole: Extraction, fs: Fs, dest: Path, es: seq<ZipEntry>, i: nat, events: seq<Progress>,
                  fs': Fs, events': seq<Progress>, i': nat)
    requires ExtractedSoFar(whole, fs, dest, es, i, events) && i < |es| && i' == i + 1
    requires ExtractEntry(fs, dest, es[i]).status.Done? && fs' == ExtractEntry(fs, dest, es[i]).fs
    requires events' == events + [Progress("unzip", i + 1, |es|)]
    ensures ExtractedSoFar(whole, fs', dest, es, i', events')
  {
    var rest := ExtractFrom(fs', dest, es, i');
    assert events + ([Progress("unzip", i + 1, |es|)] + rest.events) == events' + rest.events;
  }

  /** Entry `i` fails: the extraction ends there with the events so far. */
  lemma ExtractStops(whole: Extraction, fs: Fs, dest: Path, es: seq<ZipEntry>, i: nat, events: seq<Progress>)
    requires ExtractedSoFar(whole, fs, dest, es, i, events) && i < |es|
    requires ExtractEntry(fs, dest, es[i]).status.Failed?
    ensures whole == Extraction(ExtractEntry(fs, dest, es[i]).status, ExtractEntry(fs, dest, es[i]).fs, events)
  {
    assert events + [] == events;
  }

  /** Every entry extracted: the extraction is done with the events so far. */
  lemma ExtractEnds(whole: Extraction, fs: Fs, dest: Path, es: seq<ZipEntry>, events: seq<Progress>)
    requires ExtractedSoFar(whole, fs, dest, es, |es|, events)
    ensures whole == Extraction(Done, fs, events)
  {
    assert events + [] == events;
  }

  /** The unzip events are ("unzip", 1, n), ("unzip", 2, n), … in index order, one per
      extracted entry, all n of them exactly when extraction succeeds. */
  lemma {:induction false} UnzipEvents(fs: Fs, dest: Path, es: seq<ZipEntry>, i: nat)
    requires i <= |es|
    ensures var x := ExtractFrom(fs, dest, es, i);
      && |x.events| <= |es| - i
      && (x.status.Done? <==> |x.events| == |es| - i)
      && forall j :: 0 <= j < |x.events| ==> x.events[j] == Progress("unzip", i + j + 1, |es|)
    decreases |es| - i
  {
    if i < |es| {
      var step := ExtractEntry(fs, dest, es[i]);
      if step.status.Done? {
        UnzipEvents(step.fs, dest, es, i + 1);
      }
    }
  }

  /** A directory entry whose path already exists is not an error and changes nothing. */
  lemma ExistingDirectoryAccepted(fs: Fs, dest: Path, e: ZipEntry)
    requires e.name.Some? && e.readerOk && e.isDir && dest + e.name.value in fs
    ensures ExtractEntry(fs, dest, e) == Effect(Done, fs)
  {
  }

  /** A file entry whose path already exists fails, since files are opened create-new;
      under an existing directory the error is "File exists" and nothing changes. */
  lemma ExistingFileRejected(fs: Fs, dest: Path, e: ZipEntry)
    requires e.name.Some? && e.readerOk && !e.isDir && |dest + e.name.value| > 0 && dest + e.name.value in fs
    ensures ExtractEntry(fs, dest, e).status.Failed?
    ensures IsDir(fs, Parent(dest + e.name.value)) ==> ExtractEntry(fs, dest, e) == Effect(Failed(AlreadyExists), fs)
  {
    var path := dest + e.name.value;
    var up := if IsDir(fs, Parent(path)) then Effect(Done, fs) else CreateDirAll(fs, Parent(path));
    assert up.status.Done? ==> path in up.fs;
  }

  /** Extraction only adds to the disk: whatever existed before, including what earlier
      entries created, is still there after a later entry fails. */
  lemma {:induction false} ExtractionKeeps(fs: Fs, dest: Path, es: seq<ZipEntry>, i: nat)
    requires i <= |es|
    ensures forall q :: q in fs ==> q in ExtractFrom(fs, dest, es, i).fs && ExtractFrom(fs, dest, es, i).fs[q] == fs[q]
    decreases |es| - i
  {
    if i < |es| {
      var step := ExtractEntry(fs, dest, es[i]);
      EntryKeeps(fs, dest, es[i]);
      if step.status.Done? {
        ExtractionKeeps(step.fs, dest, es, i + 1);
      }
    }
  }

  lemma EntryKeeps(fs: Fs, dest: Path, e: ZipEntry)
    ensures forall q :: q in fs ==> q in ExtractEntry(fs, dest, e).fs && ExtractEntry(fs, dest, e).fs[q] == fs[q]
  {
    if e.name.Some? && e.readerOk && !e.isDir && |dest + e.name.value| > 0 {
      var path := dest + e.name.value;
      var up := if IsDir(fs, Parent(path)) then Effect(Done, fs) else CreateDirAll(fs, Parent(path));
      if up.status.Done? {
        var last := CreateNew(up.fs, path, Copied(e));
        assert last.status.Done? ==> path !in up.fs;
      }
    }
  }

  /** The last step: move `dest/name` to `dest/version` and delete the archive. Both calls'
      results are dropped, so a failure only means that change did not happen. */
  function Finalize(fs: Fs, dest: Path, name: string, version: string, temp: Path): Fs
  {
    var moved := Rename(fs, dest + [name], dest + [version]).fs;
    RemoveFile(moved, temp).fs
  }

  method Fetch(mirror: string, version: string, dest: Path, t: Target, send: Result<Response>,
               archive: Option<seq<ZipEntry>>, fs0: Fs)
    returns (r: Status, url: Option<string>, events: seq<Progress>, fs: Fs)
    requires Supported(t)
    // a version that does not parse fails before anything else
    ensures Parse(version).None? ==> r == Failed(InvalidVersion) && url.None? && events == [] && fs == fs0
    ensures Parse(version).Some? ==>
      url == Some(DownloadUrl(mirror, version, ArchiveFilename(t, Parse(version).value).1))
    ensures Parse(version).Some? && send.Err? ==> r == Failed(send.error) && events == [] && fs == fs0
    // the status and length checks come before the temporary file exists
    ensures Parse(version).Some? && send.Ok? && !IsSuccess(send.value.status) ==>
      r == Failed("HTTP failure (" + send.value.statusText + ")") && events == [] && fs == fs0
    ensures Parse(version).Some? && send.Ok? && IsSuccess(send.value.status) && send.value.contentLength.None? ==>
      r == Failed("Failed to get content length") && events == [] && fs == fs0
    // then the temporary file, the chunks, the archive and each entry, in that order
    ensures Parse(version).Some? && send.Ok? && IsSuccess(send.value.status) && send.value.contentLength.Some? ==>
      var temp := dest + [ArchiveFilename(t, Parse(version).value).1];
      var created := Create(fs0, temp);
      var body := send.value.body;
      var total := send.value.contentLength.value;
      var k := GoodPrefix(body);
      && (created.status.Failed? ==> r == created.status && events == [] && fs == fs0)
      && (created.status.Done? && !AllStored(body) ==>
            && r == StoreStatus(body)
            && events == DownloadEvents(Sums(body[..k]), total)
            && fs == (if k == 0 && StoredSize(body) == 0 then created.fs else created.fs[temp := File(StoredSize(body))]))
      && (created.status.Done? && AllStored(body) && archive.None? ==>
            r == Failed(MalformedArchive) && events == DownloadEvents(Sums(body), total)
            && fs == created.fs[temp := File(Sum(body))])
      && (created.status.Done? && AllStored(body) && archive.Some? ==>
            var x := ExtractFrom(created.fs[temp := File(Sum(body))], dest, archive.value, 0);
            x.status.Failed? ==> r == x.status && fs == x.fs && events == DownloadEvents(Sums(body), total) + x.events)
    // success does not depend on the rename or the removal
    ensures r.Done? <==>
      && Parse(version).Some? && send.Ok? && IsSuccess(send.value.status) && send.value.contentLength.Some?
      && var v := Parse(version).value;
         var temp := dest + [ArchiveFilename(t, v).1];
         && Create(fs0, temp).status.Done?
         && AllStored(send.value.body)
         && archive.Some?
         && ExtractFrom(Create(fs0, temp).fs[temp := File(Sum(send.value.body))], dest, archive.value, 0).status.Done?
    ensures r.Done? ==>
      var v := Parse(version).value;
      var (name, fullName) := ArchiveFilename(t, v);
      var temp := dest + [fullName];
      var x := ExtractFrom(Create(fs0, temp).fs[temp := File(Sum(send.value.body))], dest, archive.value, 0);
      && events == DownloadEvents(Sums(send.value.body), send.value.contentLength.value) + x.events
      && fs == Finalize(x.fs, dest, name, version, temp)
  {
    events := [];
    fs := fs0;
    var parsed := Parse(version);
    if parsed.None? {
      return Failed(InvalidVersion), None, events, fs;
    }
    var (name, fullName) := ArchiveFilename(t, parsed.value);
    url := Some(DownloadUrl(mirror, version, fullName));
    if send.Err? {
      return Failed(send.error), url, events, fs;
    }
    var response := send.value;
    if !IsSuccess(response.status) {
      return Failed("HTTP failure (" + response.statusText + ")"), url, events, fs;
    }
    if response.contentLength.None? {
      return Failed("Failed to get content length"), url, events, fs;
    }
    var total := response.contentLength.value;
    var temp := dest + [fullName];
    var created := Create(fs, temp);
    if created.status.Failed? {
      return created.status, url, events, fs;
    }
    var status, downloaded, counts, written := WriteChunks(created.fs, temp, response.body);
    fs := written;
    events := DownloadEvents(counts, total);
    if status.Failed? {
      return status, url, events, fs;
    }
    StoredWhole(response.body);
    assert response.body[..|response.body|] == response.body;
    assert fs == created.fs[temp := File(Sum(response.body))] by {
      if |response.body| == 0 { assert created.fs[temp] == File(0); }
    }
    if archive.None? {
      return Failed(MalformedArchive), url, events, fs;
    }
    var x := Unzip(fs, dest, archive.value);
    events := events + x.events;
    if x.status.Failed? {
      return x.status, url, events, x.fs;
    }
    fs := Finalize(x.fs, dest, name, version, temp);
    r := Done;
  }
}
