/** The `$placeholder$` translator of the main process (`src/main/i18n.ts`) and its
    twin in the renderer's app context (`src/renderer/src/app-context.tsx`), with the
    renderer's settings reducer. A message table maps a key to its message text. */
module I18n {
  import opened Wrappers
  import Strings

  const LocaleRequired := "i18n: locale parameter is required"
  const MessagesRequired := "i18n: messages parameter is required"
  const ArraySyntax := "Array syntax is not supported with more than one placeholder"
  const MapOrArray := "You must provide either a map or an array"

  /** A substitution value: a string or a number. */
  datatype SubValue = Text(text: string) | Number(n: int)

  /** The second argument of `getMessage`: absent (or another falsy value), an array, a
      map, or a bare string or number, which only the main process rejects explicitly. */
  datatype Subs =
    | Absent
    | Arr(items: seq<SubValue>)
    | Map(values: map<string, SubValue>)
    | Str(s: string)
    | Num(k: int)

  /** What a call of `getMessage` does: return a text or throw an error. */
  datatype Outcome = Returned(text: string) | Thrown(message: string)

  /** A translator built by `setup`: the locale and its message table. */
  datatype Translator = Translator(locale: string, messages: map<string, string>)

  /** `toString()` of a substitution value. */
  function ShowValue(v: SubValue): string
  {
    match v
    case Text(s) => s
    case Number(n) => if n < 0 then "-" + Strings.NatToString(-n) else Strings.NatToString(n)
  }

  /** Whether a substitution value is truthy: a non-empty string or a non-zero number. */
  predicate Truthy(v: SubValue)
  {
    match v
    case Text(s) => s != ""
    case Number(n) => n != 0
  }

  /** `value || ''` for the map entry of a placeholder name. */
  function Filled(values: map<string, SubValue>, name: string): (r: string)
    ensures name in values && Truthy(values[name]) ==> r == ShowValue(values[name])
    ensures name !in values || !Truthy(values[name]) ==> r == ""
  {
    if name in values && Truthy(values[name]) then ShowValue(values[name]) else ""
  }

  /** The value function of a substitution map. */
  function Fill(values: map<string, SubValue>): string -> string
  {
    name => Filled(values, name)
  }

  // ---------------------------------------------------------------------------------
  // `/\$([^$]+)\$/g`: the placeholders of the map form

  /** The first '$' at or after `k`, or the length when there is none. */
  function NextDollar(s: string, k: nat): (r: nat)
    requires k <= |s|
    ensures k <= r <= |s|
    ensures r < |s| ==> s[r] == '$'
    ensures forall m :: k <= m < r ==> s[m] != '$'
    decreases |s| - k
  {
    if k == |s| || s[k] == '$' then k else NextDollar(s, k + 1)
  }

  /** The next match of the global placeholder pattern when searching from `p`: the
      opening '$' and the closing one, with at least one character and no '$' between. */
  function NextPlaceholder(s: string, p: nat): (r: Option<(nat, nat)>)
    requires p <= |s|
    ensures r.Some? ==> var (i, j) := r.value;
      && p <= i && i + 2 <= j < |s| && s[i] == '$' && s[j] == '$'
      && forall m :: i < m < j ==> s[m] != '$'
    decreases |s| - p
  {
    if p == |s| then None
    else if s[p] == '$' && NextDollar(s, p + 1) < |s| && NextDollar(s, p + 1) > p + 1 then
      Some((p, NextDollar(s, p + 1)))
    else NextPlaceholder(s, p + 1)
  }

  /** The text the while loop of the map form builds from position `p` on: the text
      before each placeholder, then the placeholder's value. */
  function Render(s: string, p: nat, value: string -> string): string
    requires p <= |s|
    decreases |s| - p
  {
    var next := NextPlaceholder(s, p);
    if next.None? then s[p..]
    else s[p..next.value.0] + value(s[next.value.0 + 1..next.value.1]) + Render(s, next.value.1 + 1, value)
  }

  /** Without a '$' from `p` on there is no placeholder. */
  lemma {:induction false} NoPlaceholderWithoutDollar(s: string, p: nat)
    requires p <= |s|
    requires forall m :: p <= m < |s| ==> s[m] != '$'
    ensures NextPlaceholder(s, p).None?
    decreases |s| - p
  {
    if p < |s| {
      NoPlaceholderWithoutDollar(s, p + 1);
    }
  }

  /** A message without '$' is copied unchanged, whatever the values. */
  lemma RenderWithoutDollar(s: string, p: nat, value: string -> string)
    requires p <= |s|
    requires forall m :: p <= m < |s| ==> s[m] != '$'
    ensures Render(s, p, value) == s[p..]
  {
    NoPlaceholderWithoutDollar(s, p);
  }

  /** A placeholder's own text, `$name$`. */
  function Dollared(name: string): string
  {
    "$" + name + "$"
  }

  /** Text outside the placeholders is copied in order: when every placeholder is given
      its own `$name$` text back, the message comes out unchanged. */
  lemma {:induction false} RenderCopiesText(s: string, p: nat)
    requires p <= |s|
    ensures Render(s, p, Dollared) == s[p..]
    decreases |s| - p
  {
    var next := NextPlaceholder(s, p);
    if next.Some? {
      RenderCopiesText(s, next.value.1 + 1);
      CopiedAround(s, p, next.value.0, next.value.1);
    }
  }

  /** A placeholder given back its own text, behind the text before it and ahead of a
      rest copied unchanged, gives the message back from `p`. */
  lemma CopiedAround(s: string, p: nat, i: nat, j: nat)
    requires p <= |s| && NextPlaceholder(s, p) == Some((i, j))
    requires Render(s, j + 1, Dollared) == s[j + 1..]
    ensures Render(s, p, Dollared) == s[p..]
  {
    RenderUnfold(s, p, Dollared, i, j);
    PlaceholderSlices(s, p, i, j);
  }

  /** Cutting a message around a `$name$` and putting it back together. */
  lemma PlaceholderSlices(s: string, p: nat, i: nat, j: nat)
    requires p <= i < j < |s| && s[i] == '$' && s[j] == '$'
    ensures s[p..i] + ("$" + s[i + 1..j] + "$") + s[j + 1..] == s[p..]
  {
    assert s[p..] == s[p..i] + s[i..];
    assert s[i..] == [s[i]] + s[i + 1..];
    assert s[i + 1..] == s[i + 1..j] + s[j..];
    assert s[j..] == [s[j]] + s[j + 1..];
  }

  /** One step of the loop: the text before the placeholder found from `p`, then its
      value, then the rest. */
  lemma RenderStep(s: string, p: nat, value: string -> string, i: nat, j: nat, built: string)
    requires p <= |s|
    requires NextPlaceholder(s, p) == Some((i, j))
    ensures p <= i && j + 1 <= |s|
    ensures built + Render(s, p, value) == (built + s[p..i] + value(s[i + 1..j])) + Render(s, j + 1, value)
  {
    RenderUnfold(s, p, value, i, j);
    Reassociate(built, s[p..i], value(s[i + 1..j]), Render(s, j + 1, value));
  }

  /** `Render` from a position where a placeholder is found. */
  lemma RenderUnfold(s: string, p: nat, value: string -> string, i: nat, j: nat)
    requires p <= |s|
    requires NextPlaceholder(s, p) == Some((i, j))
    ensures Render(s, p, value) == s[p..i] + value(s[i + 1..j]) + Render(s, j + 1, value)
  {
  }

  lemma Reassociate(a: string, b: string, c: string, d: string)
    ensures a + (b + c + d) == (a + b + c) + d
  {
  }

  /** What the loop of the map form keeps: the text built so far followed by the rendering
      of the rest from `p` is the whole rendered message. */
  ghost predicate Covers(s: string, values: map<string, SubValue>, p: nat, built: string)
  {
    p <= |s| && built + Render(s, p, Fill(values)) == Render(s, 0, Fill(values))
  }

  /** One step of the loop with the values of a substitution map: from `p`, the text
      before the placeholder found and its value are appended, and the search resumes
      after the closing '$'. */
  lemma FillStep(s: string, values: map<string, SubValue>, p: nat, i: nat, j: nat, built: string,
                 p': nat, built': string)
    requires Covers(s, values, p, built)
    requires NextPlaceholder(s, p) == Some((i, j))
    requires p' == j + 1 && p <= i && j < |s|
    requires built' == built + s[p..i] + Filled(values, s[i + 1..j])
    ensures Covers(s, values, p', built')
  {
    RenderStep(s, p, Fill(values), i, j, built);
    assert Fill(values)(s[i + 1..j]) == Filled(values, s[i + 1..j]);
  }

  /** The loop's end: no placeholder from `p` on. */
  lemma RenderEnd(s: string, p: nat, value: string -> string)
    requires p <= |s|
    requires NextPlaceholder(s, p).None?
    ensures Render(s, p, value) == s[p..]
  {
  }

  /** The loop of the map form on leaving: no placeholder is left, and the rest of the
      message completes the text. */
  lemma FillEnd(s: string, values: map<string, SubValue>, p: nat, built: string)
    requires Covers(s, values, p, built)
    requires NextPlaceholder(s, p).None?
    ensures built + s[p..] == Render(s, 0, Fill(values))
  {
    RenderEnd(s, p, Fill(values));
  }

  /** The map-form loop of `getMessage`: `FIND_REPLACEMENTS.exec` in turn from
      `lastTextIndex`, appending the text before each match and then its value. */
  method FormatPlaceholders(message: string, values: map<string, SubValue>) returns (builder: string)
    ensures builder == Render(message, 0, Fill(values))
  {
    var found := NextPlaceholder(message, 0);
    builder := "";
    var lastTextIndex: nat := 0;
    while found.Some?
      invariant lastTextIndex <= |message|
      invariant found == NextPlaceholder(message, lastTextIndex)
      invariant Covers(message, values, lastTextIndex, builder)
      decreases |message| - lastTextIndex
    {
      var i, j := found.value.0, found.value.1;
      ghost var from, before := lastTextIndex, builder;
      builder := builder + message[lastTextIndex..i] + Filled(values, message[i + 1..j]);
      lastTextIndex := j + 1;
      FillStep(message, values, from, i, j, before, lastTextIndex, builder);
      found := NextPlaceholder(message, lastTextIndex);
    }
    FillEnd(message, values, lastTextIndex, builder);
    builder := builder + message[lastTextIndex..];
  }

  // ---------------------------------------------------------------------------------
  // `/\$.+?\$/`: the span the array form replaces

  /** JavaScript's line terminators, which `.` does not match. */
  predicate IsLineTerminator(c: char)
  {
    c == '\n' || c == '\r' || c == '\U{2028}' || c == '\U{2029}'
  }

  /** The closing '$' of a lazy match opened at `i`, searching from `k`: the first '$'
      at least two places after `i`, provided no line terminator comes first. */
  function LazyEnd(s: string, i: nat, k: nat): (r: Option<nat>)
    requires i < k <= |s|
    ensures r.Some? ==> k <= r.value < |s| && i + 2 <= r.value && s[r.value] == '$'
    ensures r.Some? ==> forall m :: k <= m < r.value ==> !IsLineTerminator(s[m]) && (i + 2 <= m ==> s[m] != '$')
    decreases |s| - k
  {
    if k == |s| || IsLineTerminator(s[k]) then None
    else if s[k] == '$' && i + 2 <= k then Some(k)
    else LazyEnd(s, i, k + 1)
  }

  /** Whether a lazy match opens at `i`. */
  predicate SpanOpens(s: string, i: nat)
    requires i < |s|
  {
    s[i] == '$' && LazyEnd(s, i, i + 1).Some?
  }

  /** The leftmost match searching from `p`. */
  function FirstSpan(s: string, p: nat): (r: Option<(nat, nat)>)
    requires p <= |s|
    ensures r.Some? ==> var (i, j) := r.value;
      && p <= i < |s| && SpanOpens(s, i) && LazyEnd(s, i, i + 1) == Some(j)
      && forall q :: p <= q < i ==> !SpanOpens(s, q)
    ensures r.None? <==> forall q :: p <= q < |s| ==> !SpanOpens(s, q)
    decreases |s| - p
  {
    if p == |s| then None
    else if SpanOpens(s, p) then Some((p, LazyEnd(s, p, p + 1).value))
    else FirstSpan(s, p + 1)
  }

  /** `result.replace(/\$.+?\$/, text)`: the leftmost span, dollars included, becomes
      the text; without a span the string is unchanged. */
  function ReplaceFirstSpan(s: string, text: string): (r: string)
    ensures FirstSpan(s, 0).None? ==> r == s
    ensures FirstSpan(s, 0).Some? ==> var (i, j) := FirstSpan(s, 0).value;
      r == s[..i] + text + s[j + 1..]
  {
    match FirstSpan(s, 0)
    case None => s
    case Some((i, j)) => s[..i] + text + s[j + 1..]
  }

  /** The `reduce` of the array form: each item replaces the next span in turn. */
  function Reduced(message: string, items: seq<SubValue>): string
    decreases |items|
  {
    if items == [] then message else Reduced(ReplaceFirstSpan(message, ShowValue(items[0])), items[1..])
  }

  /** The array form with no items leaves the message unchanged, and with one item
      replaces the leftmost span only. */
  lemma ReducedSmall(message: string, items: seq<SubValue>)
    requires |items| <= 1
    ensures items == [] ==> Reduced(message, items) == message
    ensures |items| == 1 ==> Reduced(message, items) == ReplaceFirstSpan(message, ShowValue(items[0]))
  {
    if |items| == 1 {
      assert items[1..] == [];
    }
  }

  /** A message without '$' has no span to replace. */
  lemma ReplaceWithoutDollar(s: string, text: string)
    requires forall m :: 0 <= m < |s| ==> s[m] != '$'
    ensures ReplaceFirstSpan(s, text) == s
  {
  }

  // ---------------------------------------------------------------------------------
  // `src/main/i18n.ts`

  /** `setup`: a falsy locale or missing message table throws. */
  function Setup(locale: string, messages: Option<map<string, string>>): (r: Result<Translator>)
    ensures locale == "" ==> r == Err(LocaleRequired)
    ensures locale != "" && messages.None? ==> r == Err(MessagesRequired)
    ensures locale != "" && messages.Some? ==> r == Ok(Translator(locale, messages.value))
  {
    if locale == "" then Err(LocaleRequired)
    else if messages.None? then Err(MessagesRequired)
    else Ok(Translator(locale, messages.value))
  }

  /** `getMessage.getLocale`: the locale given to `setup`. */
  function GetLocale(t: Translator): string
  {
    t.locale
  }

  lemma SetupKeepsLocale(locale: string, messages: map<string, string>)
    requires locale != ""
    ensures Setup(locale, Some(messages)).Ok?
    ensures GetLocale(Setup(locale, Some(messages)).value) == locale
  {
  }

  /** What the main process's `getMessage` does: the key is looked up first, then the
      substitutions are checked, then substituted. */
  function Message(t: Translator, key: string, subs: Subs): Outcome
  {
    if key !in t.messages then Returned("")
    else if subs.Arr? && |subs.items| > 1 then Thrown(ArraySyntax)
    else if subs.Str? || subs.Num? then Thrown(MapOrArray)
    else
      var message := t.messages[key];
      match subs
      case Absent => Returned(message)
      case Arr(items) => Returned(Reduced(message, items))
      case Map(values) => Returned(Render(message, 0, Fill(values)))
      case _ => assert false; Returned(message)
  }

  /** `getMessage` of `src/main/i18n.ts`. */
  method GetMessage(t: Translator, key: string, subs: Subs) returns (r: Outcome)
    ensures r == Message(t, key, subs)
  {
    if key !in t.messages {
      return Returned("");
    }
    if subs.Arr? && |subs.items| > 1 {
      return Thrown(ArraySyntax);
    }
    if subs.Str? || subs.Num? {
      return Thrown(MapOrArray);
    }
    var message := t.messages[key];
    match subs
    case Absent =>
      r := Returned(message);
    case Arr(items) =>
      r := Returned(Reduced(message, items));
    case Map(values) =>
      var text := FormatPlaceholders(message, values);
      r := Returned(text);
  }

  /** The outcomes of `getMessage`: an unknown key gives '', whatever the substitutions;
      for a known key, what throws and what is returned unchanged. */
  lemma MessageCases(t: Translator, key: string, subs: Subs)
    ensures key !in t.messages ==> Message(t, key, subs) == Returned("")
    ensures Message(t, key, subs).Thrown? <==>
      key in t.messages && ((subs.Arr? && |subs.items| > 1) || subs.Str? || subs.Num?)
    ensures key in t.messages && subs.Absent? ==> Message(t, key, subs) == Returned(t.messages[key])
    ensures key in t.messages && subs == Arr([]) ==> Message(t, key, subs) == Returned(t.messages[key])
    ensures (key in t.messages && (subs.Arr? || subs.Map?) && (forall m :: 0 <= m < |t.messages[key]| ==> t.messages[key][m] != '$')
      && Message(t, key, subs).Returned?) ==> Message(t, key, subs) == Returned(t.messages[key])
  {
    if key in t.messages {
      var message := t.messages[key];
      if subs.Arr? && |subs.items| <= 1 {
        ReducedSmall(message, subs.items);
        if |subs.items| == 1 && forall m :: 0 <= m < |message| ==> message[m] != '$' {
          ReplaceWithoutDollar(message, ShowValue(subs.items[0]));
        }
      }
      if subs.Map? && forall m :: 0 <= m < |message| ==> message[m] != '$' {
        RenderWithoutDollar(message, 0, Fill(subs.values));
      }
    }
  }

  // ---------------------------------------------------------------------------------
  // `src/renderer/src/app-context.tsx`

  /** What the renderer's `getMessage` does. Its type admits only arrays and maps; the
      array length is checked before the key, and an unknown key is its own template. */
  function AppMessage(messages: map<string, string>, key: string, subs: Subs): Outcome
    requires !subs.Str? && !subs.Num?
  {
    if subs.Arr? && |subs.items| > 1 then Thrown(ArraySyntax)
    else
      var message := if key in messages then messages[key] else key;
      match subs
      case Absent => Returned(message)
      case Arr(items) => Returned(Reduced(message, items))
      case Map(values) => Returned(Render(message, 0, Fill(values)))
  }

  /** `getMessage` of the app context. */
  method AppGetMessage(messages: map<string, string>, key: string, subs: Subs) returns (r: Outcome)
    requires !subs.Str? && !subs.Num?
    ensures r == AppMessage(messages, key, subs)
  {
    if subs.Arr? && |subs.items| > 1 {
      return Thrown(ArraySyntax);
    }
    var message := if key in messages then messages[key] else key;
    match subs
    case Absent =>
      r := Returned(message);
    case Arr(items) =>
      r := Returned(Reduced(message, items));
    case Map(values) =>
      var text := FormatPlaceholders(message, values);
      r := Returned(text);
  }

  /** The two translators agree on known keys; on an unknown key the main process gives
      '' where the renderer formats the key itself, or throws for a long array. */
  lemma TranslatorsCompared(messages: map<string, string>, locale: string, key: string, subs: Subs)
    requires !subs.Str? && !subs.Num?
    ensures key in messages ==> Message(Translator(locale, messages), key, subs) == AppMessage(messages, key, subs)
    ensures key !in messages && subs.Absent? ==> AppMessage(messages, key, subs) == Returned(key)
    ensures key !in messages && subs.Arr? && |subs.items| > 1 ==>
      Message(Translator(locale, messages), key, subs) == Returned("") && AppMessage(messages, key, subs) == Thrown(ArraySyntax)
  {
  }

  /** The renderer state: its settings fields by name, and the message table. */
  datatype UiState = UiState(fields: map<string, string>, messages: map<string, string>)

  /** `Partial<StateType>`: some fields, and perhaps a message table. */
  datatype Partial = Partial(fields: map<string, string>, messages: Option<map<string, string>>)

  datatype Action = ThemeChanged(payload: Partial) | UpdateSetting(payload: Partial) | Other

  /** `{ ...state, ...payload }`. */
  function Merge(state: UiState, payload: Partial): UiState
  {
    UiState(state.fields + payload.fields, payload.messages.UnwrapOr(state.messages))
  }

  /** The reducer of the app context: both actions spread the payload over the state;
      any other action leaves the state as it is. */
  function Reduce(state: UiState, action: Action): (r: UiState)
    ensures action.Other? ==> r == state
    ensures !action.Other? ==> r.fields.Keys == state.fields.Keys + action.payload.fields.Keys
    ensures !action.Other? ==> forall k :: k in action.payload.fields ==> r.fields[k] == action.payload.fields[k]
    ensures !action.Other? ==> forall k :: k in state.fields && k !in action.payload.fields ==> r.fields[k] == state.fields[k]
    ensures !action.Other? ==> r.messages == (if action.payload.messages.Some? then action.payload.messages.value else state.messages)
  {
    match action
    case ThemeChanged(payload) => Merge(state, payload)
    case UpdateSetting(payload) => Merge(state, payload)
    case Other => state
  }

  /** Dispatching the same action twice is dispatching it once. */
  lemma ReduceIdempotent(state: UiState, action: Action)
    ensures Reduce(Reduce(state, action), action) == Reduce(state, action)
  {
    if !action.Other? {
      var once := Reduce(state, action);
      var twice := Reduce(once, action);
      assert twice.fields == once.fields;
    }
  }

  /** The field `name` of a record, `undefined` when it has none. */
  function FieldOf(fields: map<string, string>, name: string): Option<string>
  {
    if name in fields then Some(fields[name]) else None
  }

  /** `onUpdateSetting`, after the setting is saved: the theme to apply (the system's when
      the setting follows it) when the theme changed, and the payload dispatched, whose
      messages are the freshly loaded table only when the locale changed. */
  function OnUpdateSetting(state: UiState, setting: map<string, string>, loaded: map<string, string>, systemTheme: string)
    : (r: (Option<string>, Partial))
    ensures r.0.Some? <==> FieldOf(setting, "theme") != FieldOf(state.fields, "theme")
    ensures r.0.Some? && FieldOf(setting, "theme") == Some("system") ==> r.0 == Some(systemTheme)
    ensures r.1.fields == state.fields + setting
    ensures FieldOf(setting, "locale") != FieldOf(state.fields, "locale") ==> r.1.messages == Some(loaded)
    ensures FieldOf(setting, "locale") == FieldOf(state.fields, "locale") ==> r.1.messages == Some(state.messages)
  {
    var theme := FieldOf(setting, "theme");
    var applied :=
      if theme == FieldOf(state.fields, "theme") then None
      else if theme == Some("system") then Some(systemTheme)
      else Some(theme.UnwrapOr(""));
    var messages := if FieldOf(setting, "locale") != FieldOf(state.fields, "locale") then loaded else state.messages;
    (applied, Partial(state.fields + setting, Some(messages)))
  }

  /** After the update the state holds the new settings over the old ones, and keeps its
      messages exactly when the locale is unchanged. */
  lemma UpdateSettingReloads(state: UiState, setting: map<string, string>, loaded: map<string, string>, systemTheme: string)
    ensures var next := Reduce(state, UpdateSetting(OnUpdateSetting(state, setting, loaded, systemTheme).1));
      && next.fields == state.fields + setting
      && (FieldOf(setting, "locale") == FieldOf(state.fields, "locale") ==> next.messages == state.messages)
      && (FieldOf(setting, "locale") != FieldOf(state.fields, "locale") ==> next.messages == loaded)
  {
  }
}
