/** The dynamically typed values the plugins pass around: parsed JSON from the
    SimpleX CLI and from Whisper, and the nested YAML configuration. An object
    keeps its fields in insertion order, as a Python dict does; its keys are
    distinct in every value Python can build, and lookups take the first
    binding. */
module Json {
  import opened PyText

  datatype Value =
    | Null
    | Bool(b: bool)
    | Int(i: int)
    /** A float, kept as the literal it was parsed from; no arithmetic is done on it. */
    | Float(literal: string)
    | Str(s: string)
    | List(items: seq<Value>)
    | Object(fields: seq<(string, Value)>)

  type Fields = seq<(string, Value)>

  predicate HasKey(fields: Fields, key: string) {
    exists i | 0 <= i < |fields| :: fields[i].0 == key
  }

  /** `d.get(key)` on an object: the value of the first field named `key`. */
  function Get(fields: Fields, key: string): (r: Option<Value>)
    ensures r.Some? <==> HasKey(fields, key)
    ensures r.Some? ==> exists i :: 0 <= i < |fields| && fields[i] == (key, r.value)
  {
    if |fields| == 0 then None
    else if fields[0].0 == key then Some(fields[0].1)
    else
      var r := Get(fields[1..], key);
      assert HasKey(fields, key) ==> HasKey(fields[1..], key) by {
        if HasKey(fields, key) {
          var i :| 0 <= i < |fields| && fields[i].0 == key;
          assert fields[1..][i - 1].0 == key;
        }
      }
      r
  }

  /** `d[key] = v` for a key the object already has: the field keeps its
      position and only its value changes. */
  function SetField(fields: Fields, key: string, v: Value): (r: Fields)
    requires HasKey(fields, key)
    ensures Firsts(r) == Firsts(fields)
    ensures Get(r, key) == Some(v)
    ensures forall k :: k != key ==> Get(r, k) == Get(fields, k)
  {
    if fields[0].0 == key then [(key, v)] + fields[1..]
    else
      assert HasKey(fields[1..], key) by {
        var i :| 0 <= i < |fields| && fields[i].0 == key;
        assert fields[1..][i - 1].0 == key;
      }
      [fields[0]] + SetField(fields[1..], key, v)
  }

  /** Python's `key in c` for a string `key`: a key test on a dict, a substring
      test on a str, a membership test on a list; `None` where Python raises a
      TypeError. */
  function PyIn(key: string, c: Value): Option<bool>
  {
    match c
    case Object(fields) => Some(HasKey(fields, key))
    case Str(s) => Some(Contains(s, key))
    case List(items) => Some(Str(key) in items)
    case _ => None
  }

  /** The outcome of Python's `c[key]` for a string `key`. */
  datatype Subscript = Found(v: Value) | KeyError | TypeError

  function PySubscript(c: Value, key: string): (r: Subscript)
    ensures r.Found? <==> c.Object? && HasKey(c.fields, key)
    ensures r.KeyError? <==> c.Object? && !HasKey(c.fields, key)
  {
    match c
    case Object(fields) =>
      (match Get(fields, key)
       case Some(v) => Found(v)
       case None => KeyError)
    case _ => TypeError
  }

  /** Values Python's `len()` accepts. */
  predicate HasLen(v: Value) {
    v.Str? || v.List? || v.Object?
  }

  /** The value reached by following `keys` through nested objects, if every
      key is present. */
  function At(v: Value, keys: seq<string>): (r: Option<Value>)
    ensures |keys| == 0 ==> r == Some(v)
    ensures |keys| > 0 && r.Some? ==> v.Object? && HasKey(v.fields, keys[0])
    decreases |keys|
  {
    if |keys| == 0 then Some(v)
    else if v.Object? && HasKey(v.fields, keys[0]) then At(Get(v.fields, keys[0]).value, keys[1..])
    else None
  }
}
