/** `scripts/updatelog.mjs`: the release script's reader of `UPDATELOG.md`. Each line
    matching `^## v[\d.]+` opens a section named by the rest of the line, a line starting
    with `---` closes it, and the lines in between are the section's notes. The file's
    text is an input (None when it does not exist). */
module UpdateLog {
  import opened Wrappers
  import Strings

  const MissingFile := "could not found UPDATELOG.md"

  function Duplicate(key: string): string
  {
    "Tag " + key + " dup"
  }

  function UnknownTag(tag: string): string
  {
    "could not found \"" + tag + "\" in UPDATELOG.md"
  }

  /** `/^## v[\d\.]+/`: "## v" and then a digit or a dot. */
  predicate IsTitle(line: string)
  {
    |line| >= 5 && line[..4] == "## v" && (Strings.IsDigit(line[4]) || line[4] == '.')
  }

  /** `/^---/`. */
  predicate IsEnd(line: string)
  {
    |line| >= 3 && line[..3] == "---"
  }

  /** The section a title line opens: the line after "## ", trimmed. */
  function Key(line: string): (k: string)
    requires IsTitle(line)
    ensures k != "" && k[0] == 'v'
  {
    TitleKeyLead(line);
    Strings.Trim(line[3..])
  }

  /** The text after "## " in a title line starts with 'v', and trimming keeps it. */
  lemma TitleKeyLead(line: string)
    requires IsTitle(line)
    ensures Strings.Trim(line[3..]) != [] && Strings.Trim(line[3..])[0] == 'v'
  {
    assert line[..4][3] == 'v';
    assert line[3..][0] == 'v';
    TrimmedLead(line[3..]);
  }

  /** Trimming a text that starts with a non-space keeps that first character. */
  lemma TrimmedLead(s: string)
    requires s != [] && !Strings.IsSpace(s[0])
    ensures Strings.Trim(s) != [] && Strings.Trim(s)[0] == s[0]
  {
    assert Strings.TrimStart(s) == s;
    Strings.TrimEndDropsSpace(s);
  }

  /** The sections read so far and the open one ("" when none is open). */
  datatype Reading = Reading(sections: map<string, seq<string>>, open: string)

  const Start := Reading(map[], "")

  /** One line of the `forEach`: a title opens a new section or throws if it was seen
      before; an end line closes the open section; any other line is a note of the open
      section, or ignored when none is open. */
  function Step(st: Reading, line: string): (r: Result<Reading>)
    ensures IsTitle(line) && Key(line) in st.sections ==> r == Err(Duplicate(Key(line)))
    ensures IsTitle(line) && Key(line) !in st.sections ==> r == Ok(Reading(st.sections[Key(line) := []], Key(line)))
    ensures !IsTitle(line) && IsEnd(line) ==> r == Ok(st.(open := ""))
    ensures !IsTitle(line) && !IsEnd(line) && st.open == "" ==> r == Ok(st)
  {
    if IsTitle(line) then
      var key := Key(line);
      if key in st.sections then Err(Duplicate(key)) else Ok(Reading(st.sections[key := []], key))
    else if IsEnd(line) then Ok(st.(open := ""))
    else if st.open != "" && st.open in st.sections then
      Ok(st.(sections := st.sections[st.open := st.sections[st.open] + [line]]))
    else Ok(st)
  }

  /** Reading the lines in order from a state; a thrown error stops the reading. */
  function Fold(r: Result<Reading>, lines: seq<string>): Result<Reading>
    decreases |lines|
  {
    if lines == [] || r.Err? then r else Fold(Step(r.value, lines[0]), lines[1..])
  }

  /** `resolveUpdateLog(tag)`: the tag's notes joined by "\n" and trimmed. */
  function Resolve(file: Option<string>, tag: string): (r: Result<string>)
    ensures file.None? ==> r == Err(MissingFile)
    ensures file.Some? && Fold(Ok(Start), Strings.Split(file.value, '\n')).Ok? ==>
      var sections := Fold(Ok(Start), Strings.Split(file.value, '\n')).value.sections;
      && (tag !in sections ==> r == Err(UnknownTag(tag)))
      && (tag in sections ==> r == Ok(Strings.Trim(Strings.Join(sections[tag], "\n"))))
  {
    if file.None? then Err(MissingFile)
    else
      var read := Fold(Ok(Start), Strings.Split(file.value, '\n'));
      if read.Err? then Err(read.error)
      else if tag !in read.value.sections then Err(UnknownTag(tag))
      else Ok(Strings.Trim(Strings.Join(read.value.sections[tag], "\n")))
  }

  /** `resolveUpdateLog`, line by line. */
  method ResolveUpdateLog(file: Option<string>, tag: string) returns (r: Result<string>)
    ensures r == Resolve(file, tag)
  {
    if file.None? {
      return Err(MissingFile);
    }
    var lines := Strings.Split(file.value, '\n');
    var sections: map<string, seq<string>> := map[];
    var p := "";
    var i := 0;
    assert lines[0..] == lines;
    while i < |lines|
      invariant 0 <= i <= |lines|
      invariant Fold(Ok(Reading(sections, p)), lines[i..]) == Fold(Ok(Start), lines)
    {
      ghost var before := Reading(sections, p);
      var line := lines[i];
      if IsTitle(line) {
        p := Key(line);
        if p in sections {
          assert Fold(Ok(Start), lines) == Err(Duplicate(p)) by {
            FoldStep(before, lines[i..]);
            ErrStays(Step(before, line), lines[i + 1..]);
          }
          return Err(Duplicate(p));
        }
        sections := sections[p := []];
      } else if IsEnd(line) {
        p := "";
      } else if p != "" && p in sections {
        sections := sections[p := sections[p] + [line]];
      }
      assert Step(before, line) == Ok(Reading(sections, p));
      i := i + 1;
      ReadOn(before, lines, i - 1, Fold(Ok(Start), lines), Reading(sections, p), i);
    }
    assert lines[i..] == [];
    if tag !in sections {
      return Err(UnknownTag(tag));
    }
    return Ok(Strings.Trim(Strings.Join(sections[tag], "\n")));
  }

  /** One line read: what is left is read from the new state, with the same overall
      outcome. */
  lemma ReadOn(st: Reading, lines: seq<string>, i: nat, whole: Result<Reading>, st': Reading, i': nat)
    requires i < |lines| && i' == i + 1
    requires Fold(Ok(st), lines[i..]) == whole
    requires Step(st, lines[i]) == Ok(st')
    ensures Fold(Ok(st'), lines[i'..]) == whole
  {
    FoldStep(st, lines[i..]);
    assert lines[i..][1..] == lines[i'..];
  }

  /** Reading lines is reading the first one and then the others. */
  lemma FoldStep(st: Reading, lines: seq<string>)
    requires lines != []
    ensures Fold(Ok(st), lines) == Fold(Step(st, lines[0]), lines[1..])
  {
  }

  /** Reading `a + b` is reading `a` and then `b`. */
  lemma {:induction false} FoldAppend(r: Result<Reading>, a: seq<string>, b: seq<string>)
    ensures Fold(r, a + b) == Fold(Fold(r, a), b)
    decreases |a|
  {
    if a != [] && r.Ok? {
      assert (a + b)[1..] == a[1..] + b;
      FoldAppend(Step(r.value, a[0]), a[1..], b);
    } else if a == [] {
      assert a + b == b;
    } else {
      ErrStays(r, b);
      ErrStays(r, a + b);
    }
  }

  /** A thrown error is the outcome whatever follows. */
  lemma {:induction false} ErrStays(r: Result<Reading>, lines: seq<string>)
    requires r.Err?
    ensures Fold(r, lines) == r
  {
  }

  /** No section holds a title or an end line, and the open section is a known one. */
  predicate Clean(st: Reading)
  {
    && (st.open != "" ==> st.open in st.sections)
    && forall k :: k in st.sections ==> forall line :: line in st.sections[k] ==> !IsTitle(line) && !IsEnd(line)
  }

  /** Reading keeps the state clean. */
  lemma {:induction false} FoldClean(st: Reading, lines: seq<string>)
    requires Clean(st)
    ensures Fold(Ok(st), lines).Ok? ==> Clean(Fold(Ok(st), lines).value)
    decreases |lines|
  {
    if lines != [] {
      var next := Step(st, lines[0]);
      if next.Ok? {
        StepClean(st, lines[0]);
        FoldClean(next.value, lines[1..]);
      } else {
        ErrStays(next, lines[1..]);
      }
    }
  }

  /** One line keeps the state clean: a note is added only when it is neither a title
      nor an end line. */
  lemma StepClean(st: Reading, line: string)
    requires Clean(st)
    ensures Step(st, line).Ok? ==> Clean(Step(st, line).value)
  {
    if IsTitle(line) {
      TitleKeepsClean(st, Key(line));
    } else if !IsEnd(line) && st.open != "" {
      NoteKeepsClean(st, line);
    }
  }

  /** Opening a new, empty section keeps the state clean. */
  lemma TitleKeepsClean(st: Reading, key: string)
    requires Clean(st) && key != ""
    ensures Clean(Reading(st.sections[key := []], key))
  {
  }

  /** A note that is neither a title nor an end line keeps the state clean. */
  lemma NoteKeepsClean(st: Reading, line: string)
    requires Clean(st) && st.open != "" && !IsTitle(line) && !IsEnd(line)
    ensures Clean(st.(sections := st.sections[st.open := st.sections[st.open] + [line]]))
  {
    var r := st.(sections := st.sections[st.open := st.sections[st.open] + [line]]);
    forall k | k in r.sections
      ensures forall l :: l in r.sections[k] ==> !IsTitle(l) && !IsEnd(l)
    {
      if k == st.open {
        forall l | l in r.sections[k] ensures !IsTitle(l) && !IsEnd(l) {
          if l !in st.sections[k] {
            assert l == line;
          }
        }
      }
    }
  }

  /** Title lines and end lines never appear among a section's notes. */
  lemma NoMarkersInNotes(lines: seq<string>)
    ensures Fold(Ok(Start), lines).Ok? ==> Clean(Fold(Ok(Start), lines).value)
  {
    FoldClean(Start, lines);
  }

  /** Lines before the first title are ignored: with no title among them, reading them
      first changes nothing. */
  lemma {:induction false} PreambleIgnored(pre: seq<string>, rest: seq<string>)
    requires forall i :: 0 <= i < |pre| ==> !IsTitle(pre[i])
    ensures Fold(Ok(Start), pre + rest) == Fold(Ok(Start), rest)
  {
    FoldAppend(Ok(Start), pre, rest);
    PreambleStays(pre);
  }

  lemma {:induction false} PreambleStays(pre: seq<string>)
    requires forall i :: 0 <= i < |pre| ==> !IsTitle(pre[i])
    ensures Fold(Ok(Start), pre) == Ok(Start)
    decreases |pre|
  {
    if pre != [] {
      assert Step(Start, pre[0]) == Ok(Start);
      PreambleStays(pre[1..]);
    }
  }

  /** Lines that neither open nor close a section. */
  predicate PlainNotes(notes: seq<string>)
  {
    forall k :: 0 <= k < |notes| ==> !IsTitle(notes[k]) && !IsEnd(notes[k])
  }

  /** A new title followed by notes opens its section with exactly those notes, in
      order. */
  lemma NotesCollected(st: Reading, title: string, notes: seq<string>)
    requires IsTitle(title) && Key(title) !in st.sections
    requires PlainNotes(notes)
    ensures Fold(Ok(st), [title] + notes) == Ok(Reading(st.sections[Key(title) := notes], Key(title)))
  {
    var key := Key(title);
    var started := Reading(st.sections[key := []], key);
    FoldStep(st, [title] + notes);
    assert ([title] + notes)[0] == title && ([title] + notes)[1..] == notes;
    assert Step(st, title) == Ok(started);
    NotesAppended(started, notes);
    assert started.sections[key] + notes == notes;
    assert started.sections[key := notes] == st.sections[key := notes];
  }

  /** Plain lines are appended, in order, to the open section. */
  lemma {:induction false} NotesAppended(st: Reading, notes: seq<string>)
    requires st.open != "" && st.open in st.sections && PlainNotes(notes)
    ensures Fold(Ok(st), notes) == Ok(st.(sections := st.sections[st.open := st.sections[st.open] + notes]))
    decreases |notes|
  {
    var key := st.open;
    if notes == [] {
      assert st.sections[key] + notes == st.sections[key];
      assert st.sections[key := st.sections[key]] == st.sections;
    } else {
      var next := st.(sections := st.sections[key := st.sections[key] + [notes[0]]]);
      NoteAppended(st, notes[0]);
      FoldStep(st, notes);
      assert PlainNotes(notes[1..]) by {
        forall k | 0 <= k < |notes[1..]| ensures !IsTitle(notes[1..][k]) && !IsEnd(notes[1..][k]) {
          assert notes[1..][k] == notes[k + 1];
        }
      }
      NotesAppended(next, notes[1..]);
      assert (st.sections[key] + [notes[0]]) + notes[1..] == st.sections[key] + notes;
      assert next.sections[key := next.sections[key] + notes[1..]] == st.sections[key := st.sections[key] + notes];
    }
  }

  /** A plain line is a note of the open section. */
  lemma NoteAppended(st: Reading, line: string)
    requires st.open != "" && st.open in st.sections && !IsTitle(line) && !IsEnd(line)
    ensures Step(st, line) == Ok(st.(sections := st.sections[st.open := st.sections[st.open] + [line]]))
  {
  }

  /** Sections are never dropped, and each title read names one. */
  lemma {:induction false} FoldKeeps(st: Reading, lines: seq<string>)
    ensures Fold(Ok(st), lines).Ok? ==> st.sections.Keys <= Fold(Ok(st), lines).value.sections.Keys
    ensures Fold(Ok(st), lines).Ok? ==> forall i :: 0 <= i < |lines| && IsTitle(lines[i]) ==>
      Key(lines[i]) in Fold(Ok(st), lines).value.sections
    decreases |lines|
  {
    if lines != [] {
      var next := Step(st, lines[0]);
      if next.Ok? {
        FoldKeeps(next.value, lines[1..]);
        forall i | 1 <= i < |lines| && IsTitle(lines[i])
          ensures IsTitle(lines[1..][i - 1])
        {
          assert lines[1..][i - 1] == lines[i];
        }
      } else {
        ErrStays(next, lines[1..]);
      }
    }
  }

  /** A section title read twice throws: whenever reading succeeds, the titles name
      pairwise different sections. */
  lemma TitlesDistinct(lines: seq<string>, i: nat, j: nat)
    requires i < j < |lines| && IsTitle(lines[i]) && IsTitle(lines[j])
    requires Fold(Ok(Start), lines).Ok?
    ensures Key(lines[i]) != Key(lines[j])
  {
    var mid := SeenBefore(lines, i, j);
    if Key(lines[i]) == Key(lines[j]) {
      DuplicateStops(mid, lines[j..]);
    }
  }

  /** Reading up to a later title succeeds and has seen the earlier title's section. */
  lemma SeenBefore(lines: seq<string>, i: nat, j: nat) returns (mid: Reading)
    requires i < j < |lines| && IsTitle(lines[i])
    requires Fold(Ok(Start), lines).Ok?
    ensures Fold(Ok(mid), lines[j..]) == Fold(Ok(Start), lines)
    ensures Key(lines[i]) in mid.sections
  {
    mid := PrefixAt(Start, lines, j);
    TitleKeptAt(Start, lines, i, j);
  }

  /** When reading succeeds, reading the first `j` lines succeeded and the rest continue
      from there. */
  lemma PrefixAt(st: Reading, lines: seq<string>, j: nat) returns (mid: Reading)
    requires j <= |lines| && Fold(Ok(st), lines).Ok?
    ensures Fold(Ok(st), lines[..j]) == Ok(mid)
    ensures Fold(Ok(mid), lines[j..]) == Fold(Ok(st), lines)
  {
    assert lines == lines[..j] + lines[j..];
    PrefixOk(Ok(st), lines[..j], lines[j..]);
    mid := Fold(Ok(st), lines[..j]).value;
  }

  /** A title among the first `j` lines has its section once they are read. */
  lemma TitleKeptAt(st: Reading, lines: seq<string>, i: nat, j: nat)
    requires i < j <= |lines| && IsTitle(lines[i]) && Fold(Ok(st), lines[..j]).Ok?
    ensures Key(lines[i]) in Fold(Ok(st), lines[..j]).value.sections
  {
    assert lines[..j][i] == lines[i];
    TitleKept(st, lines[..j], i);
  }

  /** When reading `a + b` succeeds, reading `a` succeeded and `b` continues from it. */
  lemma PrefixOk(r: Result<Reading>, a: seq<string>, b: seq<string>)
    requires Fold(r, a + b).Ok?
    ensures Fold(r, a).Ok? && Fold(Ok(Fold(r, a).value), b) == Fold(r, a + b)
  {
    FoldAppend(r, a, b);
    if Fold(r, a).Err? {
      ErrStays(Fold(r, a), b);
    }
  }

  /** A title read without error has its section in the result. */
  lemma TitleKept(st: Reading, lines: seq<string>, i: nat)
    requires i < |lines| && IsTitle(lines[i]) && Fold(Ok(st), lines).Ok?
    ensures Key(lines[i]) in Fold(Ok(st), lines).value.sections
  {
    FoldKeeps(st, lines);
  }

  /** A title whose section exists stops the reading. */
  lemma DuplicateStops(st: Reading, lines: seq<string>)
    requires lines != [] && IsTitle(lines[0]) && Key(lines[0]) in st.sections
    ensures Fold(Ok(st), lines).Err?
  {
    FoldStep(st, lines);
    ErrStays(Step(st, lines[0]), lines[1..]);
  }

}
