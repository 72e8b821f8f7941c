/** The deterministic parts of the OpenAI speech-to-text plugin: `${NAME}`
    expansion over the loaded configuration, the checks and the form fields
    that precede the Whisper request, and the reply built from a
    transcription. The environment, the file's size and the HTTP call are
    inputs. */
module SttOpenAI {
  import opened PyText
  import opened Json

  /** The process environment as `os.getenv` sees it. */
  type Env = map<string, string>

  const EnvOpen := "${"
  const EnvClose := '}'

  /** A reference `${name}` as it is written in the configuration. */
  function Reference(name: string): string {
    EnvOpen + name + [EnvClose]
  }

  /** `os.getenv(name, match.group(0))`: the variable's value when it is
      defined, else the reference itself. */
  function Resolve(env: Env): string -> string {
    name => if name in env then env[name] else Reference(name)
  }

  /** `re.sub(r'\$\{([^}]+)\}', replace_env_var, s)` */
  function ExpandString(env: Env, s: string): string {
    SubDelimited(s, EnvOpen, EnvClose, Resolve(env))
  }

  /** `expand_value`: strings are expanded, dicts and lists are rebuilt with
      their members expanded, everything else is returned as is. */
  function ExpandValue(env: Env, v: Value): (r: Value)
    ensures v.Str? <==> r.Str?
    ensures v.Str? ==> r.s == ExpandString(env, v.s)
    ensures v.Object? <==> r.Object?
    ensures v.Object? ==> Firsts(r.fields) == Firsts(v.fields)
    ensures v.List? <==> r.List?
    ensures v.List? ==> |r.items| == |v.items|
    ensures !v.Str? && !v.Object? && !v.List? ==> r == v
    decreases v
  {
    match v
    case Str(s) => Str(ExpandString(env, s))
    case Object(fields) =>
      var r := seq(|fields|, i requires 0 <= i < |fields| => (fields[i].0, ExpandValue(env, fields[i].1)));
      assert Firsts(r) == Firsts(fields) by {
        KeysPositionwise(r, fields);
      }
      Object(r)
    case List(items) => List(seq(|items|, i requires 0 <= i < |items| => ExpandValue(env, items[i])))
    case _ => v
  }

  lemma {:induction false} KeysPositionwise(a: Fields, b: Fields)
    requires |a| == |b|
    requires forall i :: 0 <= i < |a| ==> a[i].0 == b[i].0
    ensures Firsts(a) == Firsts(b)
  {
  }

  /** Members keep their positions: field `i` of the result is field `i` of
      the input with its value expanded, item `i` likewise. */
  lemma MembersExpandInPlace(env: Env, v: Value, i: nat)
    ensures v.Object? && i < |v.fields| ==>
      ExpandValue(env, v).fields[i] == (v.fields[i].0, ExpandValue(env, v.fields[i].1))
    ensures v.List? && i < |v.items| ==>
      ExpandValue(env, v).items[i] == ExpandValue(env, v.items[i])
  {
  }

  /** A reference to a name (non-empty, no `}`) becomes the variable's value,
      or stays as written when the variable is not defined; the text after it
      is expanded on its own. */
  lemma ExpandReference(env: Env, name: string, rest: string)
    requires name != "" && EnvClose !in name
    ensures ExpandString(env, Reference(name) + rest)
      == (if name in env then env[name] else Reference(name)) + ExpandString(env, rest)
  {
    var s := Reference(name) + rest;
    var body := s[|EnvOpen|..];
    assert s[..|EnvOpen|] == EnvOpen;
    assert body == name + [EnvClose] + rest;
    assert body[..|name|] == name;
    IndexOfUnique(body, EnvClose, |name|);
    assert MatchAt(s, EnvOpen, EnvClose) == Some(|EnvOpen| + |name|);
    assert s[|EnvOpen|..|EnvOpen| + |name|] == name;
    assert s[|EnvOpen| + |name| + 1..] == rest;
  }

  /** One pass only: a value substituted for a reference is never scanned for
      references itself, even when it holds one. */
  lemma NoRescan(env: Env, name: string)
    requires name != "" && EnvClose !in name
    requires name in env
    ensures ExpandString(env, Reference(name)) == env[name]
  {
    ExpandReference(env, name, "");
    assert Reference(name) + "" == Reference(name);
  }

  /** Text without a `$` is left as it is. */
  lemma NoDollarUnchanged(env: Env, s: string)
    requires '$' !in s
    ensures ExpandString(env, s) == s
  {
    SubDelimitedNoOpen(s, EnvOpen, EnvClose, Resolve(env));
  }

  /** With no variables defined every reference stays as written, so the
      whole configuration comes back unchanged. */
  lemma {:induction false} EmptyEnvIsIdentity(v: Value)
    ensures ExpandValue(map[], v) == v
    decreases v
  {
    match v
    case Str(s) =>
      SubDelimitedIdentity(s, EnvOpen, EnvClose, Resolve(map[]));
    case Object(fields) =>
      forall i | 0 <= i < |fields| ensures ExpandValue(map[], fields[i].1) == fields[i].1 {
        EmptyEnvIsIdentity(fields[i].1);
      }
      assert ExpandValue(map[], v).fields == fields;
    case List(items) =>
      forall i | 0 <= i < |items| ensures ExpandValue(map[], items[i]) == items[i] {
        EmptyEnvIsIdentity(items[i]);
      }
      assert ExpandValue(map[], v).items == items;
    case _ =>
  }

  const DefaultMaxFileSize := 26214400
  const DefaultFormats := ["m4a", "wav", "mp3", "mp4", "mpeg", "mpga", "ogg", "webm"]
  const DefaultLanguage := "auto"

  /** The settings `_transcribe_audio` reads. `None` stands for a setting
      whose YAML value is null. */
  datatype SttSettings = SttSettings(
    apiKey: Option<string>,
    model: Option<string>,
    language: Option<string>,
    responseFormat: Option<string>,
    maxFileSize: int,
    supportedFormats: seq<string>)

  /** The position of the last `c` in `s` (`str.rfind`). */
  function LastIndexOf(s: string, c: char): (k: nat)
    requires c in s
    ensures k < |s| && s[k] == c
    ensures forall i :: k < i < |s| ==> s[i] != c
  {
    if s[|s| - 1] == c then |s| - 1 else LastIndexOf(s[..|s| - 1], c)
  }

  /** The path components `pathlib` keeps: empty ones and "." are dropped. */
  function Components(path: string): (cs: seq<string>)
    ensures forall i :: 0 <= i < |cs| ==> cs[i] != "" && cs[i] != "." && '/' !in cs[i]
  {
    var parts := Split(path, '/');
    Keep(parts)
  }

  function Keep(parts: seq<string>): (cs: seq<string>)
    requires forall i :: 0 <= i < |parts| ==> '/' !in parts[i]
    ensures forall i :: 0 <= i < |cs| ==> cs[i] != "" && cs[i] != "." && '/' !in cs[i]
    ensures |parts| > 0 && parts[|parts| - 1] != "" && parts[|parts| - 1] != "." ==> |cs| > 0 && cs[|cs| - 1] == parts[|parts| - 1]
  {
    if |parts| == 0 then []
    else
      var cs := Keep(parts[..|parts| - 1]);
      var p := parts[|parts| - 1];
      if p == "" || p == "." then cs else cs + [p]
  }

  /** `Path(path).name` */
  function Name(path: string): (n: string)
    ensures '/' !in n
  {
    var cs := Components(path);
    if |cs| == 0 then "" else cs[|cs| - 1]
  }

  /** `Path(path).suffix`: from the last dot of the name, unless that dot
      opens the name or closes it. */
  function Suffix(path: string): (x: string)
    ensures x == "" || (x[0] == '.' && '.' !in x[1..] && |x| >= 2)
  {
    var n := Name(path);
    if '.' in n then
      var i := LastIndexOf(n, '.');
      if 0 < i < |n| - 1 then n[i..] else ""
    else ""
  }

  /** `Path(path).suffix.lower().lstrip('.')` */
  function Extension(path: string): (e: string)
    ensures '.' !in e && '/' !in e
  {
    var x := Suffix(path);
    if x == "" then "" else Lower(x[1..])
  }

  /** A file `base.ext` in any directory has extension `ext` lowercased. */
  lemma ExtensionOfFile(dir: string, base: string, ext: string)
    requires base != "" && ext != ""
    requires '/' !in base && '/' !in ext && '.' !in ext
    ensures Extension(dir + "/" + base + "." + ext) == Lower(ext)
  {
    var file := base + "." + ext;
    var path := dir + "/" + base + "." + ext;
    assert path == dir + "/" + file;
    assert Name(path) == file by {
      assert '/' !in file;
      assert |file| >= 3;
      NameOfPath(dir, file);
    }
    assert Suffix(path) == "." + ext by {
      SuffixOfName(base, ext);
      assert file[|base|..] == "." + ext;
    }
    assert ("." + ext)[1..] == ext;
  }

  lemma NameOfPath(dir: string, file: string)
    requires '/' !in file && file != "" && file != "."
    ensures Name(dir + "/" + file) == file
  {
    SplitLast(dir, file);
  }

  lemma SuffixOfName(base: string, ext: string)
    requires base != "" && ext != "" && '.' !in ext
    ensures var n := base + "." + ext;
      '.' in n && LastIndexOf(n, '.') == |base| && n[|base|..][1..] == ext
  {
    var n := base + "." + ext;
    assert n[|base|] == '.';
    LastIndexOfUnique(n, '.', |base|);
    assert n[|base|..][1..] == ext;
  }

  lemma LastIndexOfUnique(s: string, c: char, k: nat)
    requires k < |s| && s[k] == c
    requires forall i :: k < i < |s| ==> s[i] != c
    ensures LastIndexOf(s, c) == k
  {
  }

  lemma {:induction false} SplitLast(dir: string, file: string)
    requires '/' !in file
    ensures var parts := Split(dir + "/" + file, '/'); parts[|parts| - 1] == file
    decreases |dir|
  {
    if '/' in dir {
      SplitAtFirstSlash(dir, file);
      SplitLast(dir[IndexOf(dir, '/') + 1..], file);
    } else {
      SplitPlainDir(dir, file);
    }
  }

  /** The first piece of the split is the directory up to its first slash. */
  lemma SplitAtFirstSlash(dir: string, file: string)
    requires '/' in dir
    ensures var j := IndexOf(dir, '/');
      Split(dir + "/" + file, '/') == [dir[..j]] + Split(dir[j + 1..] + "/" + file, '/')
  {
    var s := dir + "/" + file;
    var j := IndexOf(dir, '/');
    assert s[..j] == dir[..j] && s[j] == '/' by {
      SliceOfAppend(dir + "/", file, j);
      SliceOfAppend(dir, "/", j);
    }
    assert s[j + 1..] == dir[j + 1..] + "/" + file by {
      SliceOfAppend(dir + "/", file, j + 1);
      SliceOfAppend(dir, "/", j + 1);
    }
    SplitAt(s, '/', j);
  }

  /** A directory without a slash and a file name split into just those two. */
  lemma SplitPlainDir(dir: string, file: string)
    requires '/' !in dir && '/' !in file
    ensures Split(dir + "/" + file, '/') == [dir, file]
  {
    var s := dir + "/" + file;
    assert s[..|dir|] == dir && s[|dir|] == '/' && s[|dir| + 1..] == file;
    SplitAt(s, '/', |dir|);
    assert Split(file, '/') == [file];
  }

  /** A name starting with its only dot, like ".ogg", has no suffix. */
  lemma HiddenFileHasNoExtension(ext: string)
    requires '/' !in ext && '.' !in ext
    ensures Extension("." + ext) == ""
  {
    var n := "." + ext;
    assert Split(n, '/') == [n];
    assert Components(n) == Keep([n]);
    if ext == "" {
      assert Keep([n]) == [];
    } else {
      assert Keep([n]) == [n];
      LastIndexOfUnique(n, '.', 0);
    }
    assert Suffix(n) == "";
  }

  /** The outcome of the checks before the request. */
  datatype Prepared =
    | NoApiKey
    | TooLarge(size: nat, max: int)
    | Unsupported(extension: string)
    | Request(fields: seq<(string, string)>)  // the form fields sent next to the file

  /** The `data` dict before pruning: `language` is None when set to "auto". */
  function RawFields(s: SttSettings): seq<(string, Option<string>)> {
    [("model", s.model),
     ("language", if s.language == Some(DefaultLanguage) then None else s.language),
     ("response_format", s.responseFormat)]
  }

  /** `{k: v for k, v in data.items() if v is not None}` */
  function Prune(raw: seq<(string, Option<string>)>): (fields: seq<(string, string)>)
    ensures |fields| <= |raw|
    ensures forall k, v :: (k, v) in fields <==> (k, Some(v)) in raw
  {
    if |raw| == 0 then []
    else
      var rest := Prune(raw[1..]);
      assert raw == [raw[0]] + raw[1..];
      assert forall x :: x in raw <==> x == raw[0] || x in raw[1..];
      match raw[0].1
      case Some(v) =>
        var r := [(raw[0].0, v)] + rest;
        assert forall k, w :: (k, w) in r <==> (k, w) == (raw[0].0, v) || (k, w) in rest;
        r
      case None => rest
  }

  /** The checks and the form of `_transcribe_audio`, in the order the source
      makes them; `size` is `os.path.getsize(path)`. */
  function PrepareTranscription(s: SttSettings, path: string, size: nat): (p: Prepared)
    ensures (s.apiKey.None? || s.apiKey == Some("")) <==> p.NoApiKey?
    ensures p.TooLarge? <==> s.apiKey.Some? && s.apiKey != Some("") && size > s.maxFileSize
    ensures p.Unsupported? ==> p.extension == Extension(path) && Extension(path) !in s.supportedFormats
    ensures p.Request? <==>
      s.apiKey.Some? && s.apiKey != Some("") && size <= s.maxFileSize && Extension(path) in s.supportedFormats
    ensures p.Request? ==> forall v :: ("model", v) in p.fields <==> s.model == Some(v)
    ensures p.Request? ==> forall v :: ("response_format", v) in p.fields <==> s.responseFormat == Some(v)
    ensures p.Request? ==> forall v :: ("language", v) in p.fields <==> s.language == Some(v) && v != DefaultLanguage
  {
    if s.apiKey.None? || s.apiKey == Some("") then NoApiKey
    else if size > s.maxFileSize then TooLarge(size, s.maxFileSize)
    else if Extension(path) !in s.supportedFormats then Unsupported(Extension(path))
    else
      RequestFields(s);
      Request(Prune(RawFields(s)))
  }

  /** The pruned form holds each setting that is set, under its own name. */
  lemma RequestFields(s: SttSettings)
    ensures var f := Prune(RawFields(s));
      && (forall v :: ("model", v) in f <==> s.model == Some(v))
      && (forall v :: ("response_format", v) in f <==> s.responseFormat == Some(v))
      && (forall v :: ("language", v) in f <==> s.language == Some(v) && v != DefaultLanguage)
  {
    var raw := RawFields(s);
    assert forall k, o :: (k, o) in raw <==> (k, o) == raw[0] || (k, o) == raw[1] || (k, o) == raw[2];
  }

  /** A file exactly at the size limit is not rejected for its size. */
  lemma LimitIsInclusive(s: SttSettings, path: string)
    requires s.maxFileSize >= 0
    ensures !PrepareTranscription(s, path, s.maxFileSize).TooLarge?
  {
  }

  /** The defaults: model "whisper-1", language "auto", format "json". */
  function DefaultSettings(key: string): SttSettings {
    SttSettings(Some(key), Some("whisper-1"), Some(DefaultLanguage), Some("json"), DefaultMaxFileSize, DefaultFormats)
  }

  /** Under the defaults the language field is left out of the form. */
  lemma DefaultFieldsOmitLanguage(key: string)
    ensures Prune(RawFields(DefaultSettings(key))) == [("model", "whisper-1"), ("response_format", "json")]
  {
    var raw := RawFields(DefaultSettings(key));
    assert raw[1..][1..][1..] == [];
    assert raw[1].1 == None;
  }

  /** With the default settings and a key, a file of at most 25 MiB whose
      extension is one of the eight default formats in any letter case, in any
      directory, is sent without a language field. */
  lemma DefaultsAccept(key: string, dir: string, base: string, ext: string, size: nat)
    requires key != "" && base != "" && '/' !in base
    requires ext != "" && '/' !in ext && '.' !in ext && Lower(ext) in DefaultFormats
    requires size <= DefaultMaxFileSize
    ensures PrepareTranscription(DefaultSettings(key), dir + "/" + base + "." + ext, size)
        == Request([("model", "whisper-1"), ("response_format", "json")])
  {
    ExtensionOfFile(dir, base, ext);
    DefaultFieldsOmitLanguage(key);
  }

  const Microphone := "\U{1F3A4}"
  const Muted := "\U{1F507}"
  const SpeechBalloon := "\U{1F4AC}"
  const NoSpeech := Muted + " (No speech detected)"

  /** The header line of both replies. The source writes `\\n` in its
      f-strings, so the separator is a backslash followed by `n`, twice, not
      two line breaks. */
  function Header(userName: string): string {
    Microphone + " **Audio from " + userName + "**\\n\\n"
  }

  /** `transcription.get('text', '')`; None where `.get` or `.strip()` would
      raise, the transcription not being a dict or its text not a string. */
  function RawText(transcription: Value): Option<string> {
    if !transcription.Object? then None
    else
      match Get(transcription.fields, "text").GetOr(Str(""))
      case Str(raw) => Some(raw)
      case _ => None
  }

  /** `_format_transcription` */
  function FormatTranscription(transcription: Value, userName: string): (r: Option<string>)
    ensures r.Some? <==> RawText(transcription).Some?
    ensures r.Some? ==> StartsWith(r.value, Header(userName))
    ensures r.Some? ==> (r.value == Header(userName) + NoSpeech <==> Strip(RawText(transcription).value) == "")
    ensures r.Some? && Strip(RawText(transcription).value) != "" ==>
      r.value == Header(userName) + SpeechBalloon + " \"" + Strip(RawText(transcription).value) + "\""
  {
    match RawText(transcription)
    case None => None
    case Some(raw) =>
      var text := Strip(raw);
      var h := Header(userName);
      if text == "" then
        PrefixOfAppend(h, NoSpeech);
        Some(h + NoSpeech)
      else
        var quoted := SpeechBalloon + " \"" + text + "\"";
        var r := h + SpeechBalloon + " \"" + text + "\"";
        Regroup(h, SpeechBalloon, " \"", text, "\"");
        PrefixOfAppend(h, quoted);
        assert r != h + NoSpeech by {
          assert r[|h|] == quoted[0] == SpeechBalloon[0];
          assert (h + NoSpeech)[|h|] == Muted[0];
        }
        Some(r)
  }

  lemma Regroup<T>(a: seq<T>, b: seq<T>, c: seq<T>, d: seq<T>, e: seq<T>)
    ensures a + b + c + d + e == a + (b + c + d + e)
  {
  }

  /** A transcription holding only whitespace, or no text at all, reads as no
      speech. */
  lemma BlankTextIsNoSpeech(fields: Fields, userName: string)
    requires Get(fields, "text").None? || exists raw :: Get(fields, "text") == Some(Str(raw))
    requires forall raw :: Get(fields, "text") == Some(Str(raw)) ==> forall i :: 0 <= i < |raw| ==> IsSpace(raw[i])
    ensures FormatTranscription(Object(fields), userName) == Some(Header(userName) + NoSpeech)
  {
  }
}
