/** `utils::help`: reading and writing the app's json and text files, and the macros
    that turn errors into strings or log them. Whether a path exists, what reading it
    gives and json decoding and encoding are parameters. */
module Help {
  import opened Wrappers

  function FileNotFound(path: string): string { "file not found \"" + path + "\"" }
  function ReadFailed(path: string): string { "failed to read the file \"" + path + "\"" }
  function JsonFailed(path: string): string { "failed to read the file with json format \"" + path + "\"" }
  function SaveFailed(path: string): string { "failed to save file \"" + path + "\"" }

  /** `read_string`: the text, or the read failure under the path's message. */
  function ReadString(path: string, read: Result<string>): (r: Result<string>)
    ensures read.Ok? ==> r == read
    ensures read.Err? ==> r == Err(ReadFailed(path))
  {
    if read.Ok? then read else Err(ReadFailed(path))
  }

  /** `read_json`: a missing path fails before anything is read; otherwise the read and
      the decoding can each fail with their own message. */
  function ReadJson<T>(path: string, present: bool, read: Result<string>, decode: string -> Option<T>): (r: Result<T>)
    ensures !present ==> r == Err(FileNotFound(path))
    ensures present && read.Err? ==> r == Err(ReadFailed(path))
    ensures present && read.Ok? && decode(read.value).None? ==> r == Err(JsonFailed(path))
    ensures present && read.Ok? && decode(read.value).Some? ==> r == Ok(decode(read.value).value)
  {
    if !present then Err(FileNotFound(path))
    else if read.Err? then Err(ReadFailed(path))
    else
      var decoded := decode(read.value);
      if decoded.None? then Err(JsonFailed(path)) else Ok(decoded.value)
  }

  /** The text `save_json` writes: the json, after the prefix and a blank line when a
      prefix is given. */
  function JsonText(json: string, prefix: Option<string>): string
  {
    if prefix.Some? then prefix.value + "\n\n" + json else json
  }

  /** The written text splits back into its prefix and the json. */
  lemma JsonTextSplits(json: string, prefix: Option<string>)
    ensures prefix.None? ==> JsonText(json, prefix) == json
    ensures prefix.Some? ==> var t := JsonText(json, prefix); var n := |prefix.value|;
      && |t| == n + 2 + |json|
      && t[..n] == prefix.value && t[n..n + 2] == "\n\n" && t[n + 2..] == json
  {
  }

  /** `save_json`: encoding can fail with its own error; a failed write is reported with
      the path. The second component is the file's new text when the write succeeded. */
  function SaveJson(path: string, encoded: Result<string>, prefix: Option<string>, writes: bool)
    : (r: (Status, Option<string>))
    ensures encoded.Err? ==> r == (Failed(encoded.error), None)
    ensures encoded.Ok? && !writes ==> r == (Failed(SaveFailed(path)), None)
    ensures encoded.Ok? && writes ==> r == (Done, Some(JsonText(encoded.value, prefix)))
  {
    if encoded.Err? then (Failed(encoded.error), None)
    else if !writes then (Failed(SaveFailed(path)), None)
    else (Done, Some(JsonText(encoded.value, prefix)))
  }

  /** A file written without a prefix reads back as the value written, for a decoder
      that inverts the encoder. */
  lemma SaveThenRead<T>(path: string, x: T, encode: T -> string, decode: string -> Option<T>)
    requires decode(encode(x)) == Some(x)
    ensures var (s, text) := SaveJson(path, Ok(encode(x)), None, true);
      s.Done? && text.Some? && ReadJson(path, true, Ok(text.value), decode) == Ok(x)
  {
  }

  /** `wrap_err!`: the value passes through and the error becomes its message, which
      in this model it already is. */
  function WrapErr<T>(r: Result<T>): (w: Result<T>)
    ensures w.Ok? <==> r.Ok?
    ensures r.Ok? ==> w.value == r.value
    ensures r.Err? ==> w.error == r.error
  {
    match r
    case Ok(a) => Ok(a)
    case Err(e) => Err(e)
  }

  /** `log_err!`: the line logged, if any; nothing is passed on to the caller. With a
      message of its own, that message is logged instead of the error. */
  function LogErr(s: Status, message: Option<string>): (logged: Option<string>)
    ensures logged.Some? <==> s.Failed?
    ensures s.Failed? && message.None? ==> logged == Some(s.error)
    ensures s.Failed? && message.Some? ==> logged == message
  {
    if s.Done? then None else Some(message.UnwrapOr(s.error))
  }
}
