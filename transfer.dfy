/** The response body as the download loops of the get-node crate see it: a stream of
    chunks read one by one (`stream.next()`), each a number of bytes, a read error
    (`chunk?`), or bytes whose write to the file fails (`write_all(&chunk).await?`, with
    the part of them that reached the file). Both archive fetchers write the chunks to a
    temporary file and report the running byte count after every chunk written. */
module Transfer {
  import opened Wrappers
  import opened FsModel

  datatype Chunk = Chunk(len: nat) | BrokenChunk(error: string) | UnwritableChunk(written: nat, error: string)

  /** The HTTP response: status code, its display text (`404 Not Found`), the
      `Content-Length` header if any, and the body stream. */
  datatype Response = Response(status: nat, statusText: string, contentLength: Option<nat>, body: seq<Chunk>)

  predicate IsSuccess(status: nat) { 200 <= status <= 299 }

  /** Every chunk is read and written. */
  predicate AllStored(cs: seq<Chunk>) { forall i :: 0 <= i < |cs| ==> cs[i].Chunk? }

  /** Number of chunks stored before the first read or write error. */
  function GoodPrefix(cs: seq<Chunk>): (k: nat)
    ensures k <= |cs| && AllStored(cs[..k])
    ensures k < |cs| ==> !cs[k].Chunk?
    decreases |cs|
  {
    if cs == [] || !cs[0].Chunk? then 0
    else
      var k := GoodPrefix(cs[1..]);
      assert cs[..k + 1] == [cs[0]] + cs[1..][..k];
      k + 1
  }

  /** Total bytes of the chunks read. */
  function Sum(cs: seq<Chunk>): nat
    decreases |cs|
  {
    if cs == [] then 0
    else Sum(cs[..|cs| - 1]) + (if cs[|cs| - 1].Chunk? then cs[|cs| - 1].len else 0)
  }

  /** The running byte count reported after each chunk. */
  function Sums(cs: seq<Chunk>): (r: seq<nat>)
    ensures |r| == |cs|
    decreases |cs|
  {
    if cs == [] then [] else Sums(cs[..|cs| - 1]) + [Sum(cs)]
  }

  lemma {:induction false} SumsAt(cs: seq<Chunk>, k: nat)
    requires k < |cs|
    ensures Sums(cs)[k] == Sum(cs[..k + 1])
    decreases |cs|
  {
    if k < |cs| - 1 {
      SumsAt(cs[..|cs| - 1], k);
      assert cs[..|cs| - 1][..k + 1] == cs[..k + 1];
    } else {
      assert cs[..k + 1] == cs;
    }
  }

  lemma {:induction false} SumGrows(cs: seq<Chunk>, j: nat)
    requires j <= |cs|
    ensures Sum(cs[..j]) <= Sum(cs)
    decreases |cs|
  {
    if j < |cs| {
      SumGrows(cs[..|cs| - 1], j);
      assert cs[..|cs| - 1][..j] == cs[..j];
    } else {
      assert cs[..j] == cs;
    }
  }

  /** The reported counts never decrease, and the last one is the whole body. */
  lemma SumsMonotone(cs: seq<Chunk>)
    ensures forall i, j :: 0 <= i <= j < |cs| ==> Sums(cs)[i] <= Sums(cs)[j]
    ensures |cs| > 0 ==> Sums(cs)[|cs| - 1] == Sum(cs)
  {
    forall i, j | 0 <= i <= j < |cs| ensures Sums(cs)[i] <= Sums(cs)[j] {
      SumsOrdered(cs, i, j);
    }
    if |cs| > 0 {
      SumsAt(cs, |cs| - 1);
      assert cs[..|cs|] == cs;
    }
  }

  /** Two reported counts, the earlier no larger. */
  lemma SumsOrdered(cs: seq<Chunk>, i: nat, j: nat)
    requires i <= j < |cs|
    ensures Sums(cs)[i] <= Sums(cs)[j]
  {
    SumsAt(cs, i);
    SumsAt(cs, j);
    SumGrows(cs[..j + 1], i + 1);
    assert cs[..j + 1][..i + 1] == cs[..i + 1];
  }

  /** The size of the temporary file after the download loop: the chunks before the
      first error, plus what reached the file of a chunk whose write failed. */
  function StoredSize(cs: seq<Chunk>): nat
  {
    var k := GoodPrefix(cs);
    Sum(cs[..k]) + (if k < |cs| && cs[k].UnwritableChunk? then cs[k].written else 0)
  }

  /** The download loop's outcome: the first read or write error, or success exactly when
      every chunk is stored. */
  function StoreStatus(cs: seq<Chunk>): (s: Status)
    ensures s.Done? <==> AllStored(cs)
  {
    var k := GoodPrefix(cs);
    if k < |cs| then Failed(cs[k].error) else Done
  }

  /** The download loop: appends each chunk to the temporary file `temp` and records the
      running count, stopping at the first read or write error. The file is assumed
      created. */
  method WriteChunks(fs0: Fs, temp: Path, cs: seq<Chunk>) returns (status: Status, downloaded: nat, counts: seq<nat>, fs: Fs)
    ensures var k := GoodPrefix(cs);
      && counts == Sums(cs[..k])
      && downloaded == Sum(cs[..k])
      && fs == (if k == 0 && StoredSize(cs) == 0 then fs0 else fs0[temp := File(StoredSize(cs))])
      && status == StoreStatus(cs)
  {
    var k := GoodPrefix(cs);
    fs := fs0;
    downloaded := 0;
    counts := [];
    var i := 0;
    while i < |cs|
      invariant 0 <= i <= k
      invariant downloaded == Sum(cs[..i]) && counts == Sums(cs[..i])
      invariant fs == (if i == 0 then fs0 else fs0[temp := File(downloaded)])
    {
      if cs[i].BrokenChunk? {
        assert i == k;
        return Failed(cs[i].error), downloaded, counts, fs;
      }
      if cs[i].UnwritableChunk? {
        assert i == k;
        if i > 0 || cs[i].written > 0 {
          fs := fs0[temp := File(downloaded + cs[i].written)];
        }
        return Failed(cs[i].error), downloaded, counts, fs;
      }
      assert cs[..i + 1][..i] == cs[..i];
      downloaded := downloaded + cs[i].len;
      fs := fs0[temp := File(downloaded)];
      counts := counts + [downloaded];
      i := i + 1;
    }
    assert cs[..i] == cs;
    status := Done;
  }

  /** A body whose chunks are all stored leaves the file holding all of it. */
  lemma StoredWhole(cs: seq<Chunk>)
    requires AllStored(cs)
    ensures GoodPrefix(cs) == |cs| && StoredSize(cs) == Sum(cs)
  {
    assert cs[..|cs|] == cs;
  }
}
