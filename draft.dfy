/** `config::draft::Draft<T>`: a committed value and an optional pending copy, behind
    one lock. Readers see the committed value (`data`) or the newest one (`latest`);
    writers edit a draft that only becomes visible to `data` on `apply`, or is dropped
    by `discard`. The guards Rust hands out are modelled as edit functions `T -> T`
    applied to the guarded value; locking itself is not modelled. */
module Drafts {
  import opened Wrappers
  import Settings

  /** The `(T, Option<T>)` tuple inside the mutex. */
  datatype Store<T> = Store(committed: T, pending: Option<T>)

  /** What `latest()` points at. */
  function Latest<T>(s: Store<T>): T
  {
    if s.pending.None? then s.committed else s.pending.value
  }

  /** `draft()` followed by an edit through the guard: the draft is cloned from the
      committed value only when none exists yet. */
  function Edited<T>(s: Store<T>, edit: T -> T): Store<T>
  {
    var d := if s.pending.None? then s.committed else s.pending.value;
    Store(s.committed, Some(edit(d)))
  }

  /** `latest()` followed by an edit: writes the draft if any, otherwise the committed value. */
  function LatestEdited<T>(s: Store<T>, edit: T -> T): Store<T>
  {
    if s.pending.None? then Store(edit(s.committed), None) else Store(s.committed, Some(edit(s.pending.value)))
  }

  /** `data()` followed by an edit: writes the committed value, even under a draft. */
  function DataEdited<T>(s: Store<T>, edit: T -> T): Store<T>
  {
    Store(edit(s.committed), s.pending)
  }

  /** `apply()`: the new store and the returned value. */
  function Applied<T>(s: Store<T>): (Store<T>, Option<T>)
  {
    match s.pending
    case Some(d) => (Store(d, None), Some(s.committed))
    case None => (s, None)
  }

  /** `discard()`: the new store and the returned draft. */
  function Discarded<T>(s: Store<T>): (Store<T>, Option<T>)
  {
    (Store(s.committed, None), s.pending)
  }

  /** `latest()` is the draft when one exists and the committed value otherwise. */
  lemma LatestIsNewest<T>(s: Store<T>)
    ensures s.pending.Some? ==> Latest(s) == s.pending.value
    ensures s.pending.None? ==> Latest(s) == s.committed
  {
  }

  /** Editing through `draft()` never touches what `data()` sees, and what `latest()`
      sees afterwards is the edit of what it saw before; a second `draft()` keeps the
      first one's edits. */
  lemma DraftIsolated<T>(s: Store<T>, f: T -> T, g: T -> T)
    ensures Edited(s, f).committed == s.committed
    ensures Latest(Edited(s, f)) == f(Latest(s))
    ensures Latest(Edited(Edited(s, f), g)) == g(f(Latest(s)))
  {
  }

  /** `apply()` with a draft commits it, returns the old committed value and leaves no
      draft; `data()` and `latest()` then agree. */
  lemma ApplyCommits<T>(s: Store<T>)
    requires s.pending.Some?
    ensures Applied(s).0 == Store(Latest(s), None)
    ensures Applied(s).1 == Some(s.committed)
    ensures Latest(Applied(s).0) == Applied(s).0.committed
  {
  }

  /** `apply()` without a draft returns None and changes nothing, so a second `apply()`
      right after another one always does this. */
  lemma ApplyNothing<T>(s: Store<T>)
    ensures s.pending.None? ==> Applied(s) == (s, None)
    ensures Applied(Applied(s).0).1.None? && Applied(Applied(s).0).0 == Applied(s).0
  {
  }

  /** `latest()` survives `apply()`: the newest value is the same before and after. */
  lemma ApplyKeepsLatest<T>(s: Store<T>)
    ensures Latest(Applied(s).0) == Latest(s)
  {
  }

  /** `discard()` drops the draft and hands it back; the committed value is untouched. */
  lemma DiscardRestores<T>(s: Store<T>, f: T -> T)
    ensures Discarded(s).0 == Store(s.committed, None)
    ensures Discarded(s).1 == s.pending
    ensures Latest(Discarded(Edited(s, f)).0) == s.committed
  {
  }

  /** An edit through `latest()` followed by `apply()` reaches the committed value
      whether or not a draft existed. */
  lemma EditLatestThenApply<T>(s: Store<T>, f: T -> T)
    ensures Applied(LatestEdited(s, f)).0 == Store(f(Latest(s)), None)
  {
  }

  /** The shared store. Every method states its new store through the functions above. */
  class Draft<T> {
    var committed: T
    var pending: Option<T>

    function State(): Store<T>
      reads this
    {
      Store(committed, pending)
    }

    /** `From<T>`: the value committed and no draft. */
    constructor(data: T)
      ensures State() == Store(data, None)
    {
      committed := data;
      pending := None;
    }

    function Data(): (d: T)
      reads this
      ensures d == State().committed
    {
      committed
    }

    function Newest(): (d: T)
      reads this
      ensures d == Latest(State())
    {
      if pending.None? then committed else pending.value
    }

    /** `draft()` plus an edit through its guard; returns what the guard last held. */
    method EditDraft(edit: T -> T) returns (d: T)
      modifies this
      ensures State() == Edited(old(State()), edit)
      ensures d == Latest(State())
    {
      if pending.None? {
        pending := Some(committed);
      }
      pending := Some(edit(pending.value));
      d := pending.value;
    }

    method EditLatest(edit: T -> T)
      modifies this
      ensures State() == LatestEdited(old(State()), edit)
    {
      if pending.None? {
        committed := edit(committed);
      } else {
        pending := Some(edit(pending.value));
      }
    }

    method EditData(edit: T -> T)
      modifies this
      ensures State() == DataEdited(old(State()), edit)
    {
      committed := edit(committed);
    }

    method Apply() returns (previous: Option<T>)
      modifies this
      ensures (State(), previous) == Applied(old(State()))
    {
      var taken := pending;
      pending := None;
      match taken
      case Some(d) =>
        previous := Some(committed);
        committed := d;
      case None =>
        previous := None;
    }

    method Discard() returns (taken: Option<T>)
      modifies this
      ensures (State(), taken) == Discarded(old(State()))
    {
      taken := pending;
      pending := None;
    }
  }

  /** The crate's `test_draft`, on the store's values. */
  lemma DraftTest()
    ensures var s0 := Store(Settings.Empty.(enableSilentStart := Some(true), noProxy := Some(false)), None);
      var s1 := Edited(s0, (x: Settings.Settings) => x.(enableSilentStart := Some(false), noProxy := Some(true)));
      && s1.committed.enableSilentStart == Some(true) && s1.committed.noProxy == Some(false)
      && Latest(Edited(s1, x => x)).enableSilentStart == Some(false)
      && Latest(s1).noProxy == Some(true)
      && Applied(s1).1.Some? && Applied(Applied(s1).0).1.None?
      && Applied(s1).0.committed.enableSilentStart == Some(false) && Applied(s1).0.committed.noProxy == Some(true)
      && Latest(Edited(Applied(s1).0, x => x)).noProxy == Some(true)
  {
  }
}
