/** An abstract file system for the get-node crate's download and unpack routines:
    paths are sequences of components and the disk maps each existing path to a
    directory or to a file of some size. Error texts are those Linux reports. */
module FsModel {
  import opened Wrappers

  type Path = seq<string>

  datatype Node = Dir | File(size: nat)

  type Fs = map<Path, Node>

  const AlreadyExists := "File exists (os error 17)"
  const NotFound := "No such file or directory (os error 2)"
  const NotADirectory := "Not a directory (os error 20)"
  const IsADirectory := "Is a directory (os error 21)"

  /** The result of a file-system call together with the disk it leaves behind. */
  datatype Effect = Effect(status: Status, fs: Fs)

  predicate IsDir(fs: Fs, p: Path) { p in fs && fs[p] == Dir }

  function Parent(p: Path): Path
    requires |p| > 0
  {
    p[..|p| - 1]
  }

  /** `create_dir_all`: creates `p` and every missing ancestor. An existing file at `p`
      fails with "File exists"; a file where an ancestor should be fails with "Not a
      directory", leaving the ancestors created so far in place. */
  function CreateDirAll(fs: Fs, p: Path): (e: Effect)
    ensures e.status.Done? ==> IsDir(e.fs, p)
    ensures e.status.Failed? ==> e.status.error in {AlreadyExists, NotADirectory}
    ensures e.status == Failed(AlreadyExists) ==> p in fs && e.fs == fs
    ensures forall q :: q in fs ==> q in e.fs && e.fs[q] == fs[q]
    ensures forall q :: q in e.fs && q !in fs ==> q <= p && e.fs[q] == Dir
    decreases |p|
  {
    if p in fs then
      (if fs[p] == Dir then Effect(Done, fs) else Effect(Failed(AlreadyExists), fs))
    else if p == [] then Effect(Done, fs[p := Dir])
    else if Parent(p) in fs then
      (if fs[Parent(p)] == Dir then Effect(Done, fs[p := Dir]) else Effect(Failed(NotADirectory), fs))
    else
      var up := CreateDirAll(fs, Parent(p));
      if up.status.Failed? then up else Effect(Done, up.fs[p := Dir])
  }

  /** `OpenOptions::new().write(true).create_new(true).open(p)`, then writing `size` bytes. */
  function CreateNew(fs: Fs, p: Path, size: nat): (e: Effect)
    requires |p| > 0
    ensures e.status.Done? <==> p !in fs && IsDir(fs, Parent(p))
    ensures e.status.Done? ==> e.fs == fs[p := File(size)]
    ensures e.status.Failed? ==> e.fs == fs
  {
    if p in fs then Effect(Failed(AlreadyExists), fs)
    else if !IsDir(fs, Parent(p)) then Effect(Failed(NotFound), fs)
    else Effect(Done, fs[p := File(size)])
  }

  /** `File::create(p)`: creates or truncates a file. */
  function Create(fs: Fs, p: Path): (e: Effect)
    requires |p| > 0
    ensures e.status.Done? <==> (p !in fs || fs[p].File?) && IsDir(fs, Parent(p))
    ensures e.status.Done? ==> e.fs == fs[p := File(0)]
    ensures e.status.Failed? ==> e.fs == fs
  {
    if p in fs && fs[p] == Dir then Effect(Failed(IsADirectory), fs)
    else if !IsDir(fs, Parent(p)) then Effect(Failed(NotFound), fs)
    else Effect(Done, fs[p := File(0)])
  }

  /** `remove_file(p)`. */
  function RemoveFile(fs: Fs, p: Path): (e: Effect)
    ensures e.status.Done? <==> p in fs && fs[p].File?
    ensures e.status.Done? ==> e.fs == fs - {p}
    ensures e.status.Failed? ==> e.fs == fs
  {
    if p !in fs then Effect(Failed(NotFound), fs)
    else if fs[p] == Dir then Effect(Failed(IsADirectory), fs)
    else Effect(Done, fs - {p})
  }

  /** `rename(from, to)` onto a path that does not exist yet: everything at or below
      `from` moves below `to`. */
  function Rename(fs: Fs, from: Path, to: Path): (e: Effect)
    ensures e.status.Done? <==> from in fs && to !in fs && |to| > 0 && IsDir(fs, Parent(to)) && !(from <= to)
    ensures e.status.Failed? ==> e.fs == fs
  {
    if from !in fs then Effect(Failed(NotFound), fs)
    else if to in fs then Effect(Failed(AlreadyExists), fs)
    else if |to| == 0 || !IsDir(fs, Parent(to)) || from <= to then Effect(Failed(NotFound), fs)
    else Effect(Done, Moved(fs, from, to))
  }

  function Moved(fs: Fs, from: Path, to: Path): Fs
  {
    var kept := map q | q in fs && !(from <= q) :: fs[q];
    MoveInjective(from, to);
    var moved := map q | q in fs && from <= q :: to + q[|from|..] := fs[q];
    kept + moved
  }

  lemma MoveInjective(from: Path, to: Path)
    ensures forall q1: Path, q2: Path :: from <= q1 && from <= q2 && to + q1[|from|..] == to + q2[|from|..] ==> q1 == q2
  {
    forall q1: Path, q2: Path | from <= q1 && from <= q2 && to + q1[|from|..] == to + q2[|from|..]
      ensures q1 == q2
    {
      assert q1[|from|..] == (to + q1[|from|..])[|to|..];
      assert q2[|from|..] == (to + q2[|from|..])[|to|..];
      assert q1 == from + q1[|from|..];
      assert q2 == from + q2[|from|..];
    }
  }

  /** A rename leaves every path outside both subtrees alone and lands `from` on `to`. */
  lemma RenameMoves(fs: Fs, from: Path, to: Path, q: Path)
    requires Rename(fs, from, to).status.Done?
    ensures to in Rename(fs, from, to).fs && Rename(fs, from, to).fs[to] == fs[from]
    ensures q in fs && !(from <= q) && !(to <= q) ==> q in Rename(fs, from, to).fs && Rename(fs, from, to).fs[q] == fs[q]
  {
    MoveInjective(from, to);
    var moved := map q | q in fs && from <= q :: to + q[|from|..] := fs[q];
    assert from in fs && from <= from && to + from[|from|..] == to;
    assert to in moved && moved[to] == fs[from];
  }
}
