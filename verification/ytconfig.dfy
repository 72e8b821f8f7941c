/** The `!youtube config get` / `set` commands of the current YouTube plugin:
    a dotted setting path addresses a value in the nested configuration; a
    new value typed by the user is classified as a bool, an int, a float or a
    string; the addressed leaf is overwritten only when every key on the path
    already exists, and the change is rolled back when saving the file fails. */
module YouTubeConfig {
  import opened PyText
  import opened Json

  /** The keys of a dotted setting path (`path.split('.')`). */
  function PathKeys(path: string): (keys: seq<string>)
    ensures |keys| >= 1
    ensures forall i :: 0 <= i < |keys| ==> '.' !in keys[i]
  {
    Split(path, '.')
  }

  /** The outcome of reading a setting. `Raised` stands for the TypeError that
      escapes when a key is applied to a list or a scalar. */
  datatype GetOutcome = Present(v: Value) | NotFound | Raised

  /** `value = value[key]` for each key in turn. */
  function Lookup(v: Value, keys: seq<string>): (r: GetOutcome)
    ensures |keys| == 0 ==> r == Present(v)
    ensures |keys| > 0 && r.Present? ==> v.Object? && HasKey(v.fields, keys[0])
  {
    if |keys| == 0 then Present(v)
    else
      match PySubscript(v, keys[0])
      case Found(w) => Lookup(w, keys[1..])
      case KeyError => NotFound
      case TypeError => Raised
  }

  /** Some prefix of the path leads to an object that lacks the next key: the
      KeyError the walk raises. */
  predicate MissingAlong(v: Value, keys: seq<string>) {
    exists k :: 0 <= k < |keys| && At(v, keys[..k]).Some? && At(v, keys[..k]).value.Object?
      && !HasKey(At(v, keys[..k]).value.fields, keys[k])
  }

  /** The walk finds a value exactly when every key leads into an object that
      holds it, and then it finds the value at the end of the path; it reports
      a missing key exactly when it reaches an object without the next key. */
  lemma {:induction false} LookupAt(v: Value, keys: seq<string>)
    ensures Lookup(v, keys).Present? <==> At(v, keys).Some?
    ensures Lookup(v, keys).Present? ==> Lookup(v, keys).v == At(v, keys).value
    ensures Lookup(v, keys).NotFound? <==> MissingAlong(v, keys)
    decreases |keys|
  {
    if |keys| > 0 {
      assert keys[..0] == [];
      if v.Object? && HasKey(v.fields, keys[0]) {
        var w := Get(v.fields, keys[0]).value;
        assert PySubscript(v, keys[0]) == Found(w);
        LookupAt(w, keys[1..]);
        assert At(v, keys) == At(w, keys[1..]);
        forall k | 1 <= k <= |keys| ensures At(v, keys[..k]) == At(w, keys[1..][..k - 1]) {
          assert keys[..k][0] == keys[0];
          assert keys[..k][1..] == keys[1..][..k - 1];
        }
        if MissingAlong(v, keys) {
          var k :| 0 <= k < |keys| && At(v, keys[..k]).Some? && At(v, keys[..k]).value.Object?
            && !HasKey(At(v, keys[..k]).value.fields, keys[k]);
          assert k >= 1;
          assert keys[1..][k - 1] == keys[k];
          assert MissingAlong(w, keys[1..]);
        }
        if MissingAlong(w, keys[1..]) {
          var k :| 0 <= k < |keys[1..]| && At(w, keys[1..][..k]).Some? && At(w, keys[1..][..k]).value.Object?
            && !HasKey(At(w, keys[1..][..k]).value.fields, keys[1..][k]);
          assert At(v, keys[..k + 1]) == At(w, keys[1..][..k]);
          assert MissingAlong(v, keys);
        }
      } else if v.Object? {
        assert At(v, keys[..0]) == Some(v);
      } else {
        forall k | 0 <= k < |keys| ensures !(At(v, keys[..k]).Some? && At(v, keys[..k]).value.Object?) {
          if k > 0 {
            assert |keys[..k]| > 0;
          }
        }
      }
    }
  }

  /** `_get_config(setting_path)` */
  function GetConfig(config: Value, path: string): (r: GetOutcome)
    ensures !config.Object? ==> r.Raised?
    ensures config.Object? && !HasKey(config.fields, PathKeys(path)[0]) ==> r.NotFound?
    ensures r.Present? <==> At(config, PathKeys(path)).Some?
    ensures r.Present? ==> r.v == At(config, PathKeys(path)).value
    ensures r.NotFound? <==> MissingAlong(config, PathKeys(path))
  {
    LookupAt(config, PathKeys(path));
    Lookup(config, PathKeys(path))
  }

  /** The number of times `c` occurs in `s`. */
  function Count(s: string, c: char): (n: nat)
    ensures n <= |s|
    ensures n == 0 <==> c !in s
  {
    if |s| == 0 then 0 else (if s[0] == c then 1 else 0) + Count(s[1..], c)
  }

  /** `s.replace('.', '')` */
  function RemoveDots(s: string): (r: string)
    ensures '.' !in r
    ensures |r| == |s| - Count(s, '.')
    ensures forall c :: c != '.' ==> (c in r <==> c in s)
  {
    if |s| == 0 then ""
    else if s[0] == '.' then RemoveDots(s[1..])
    else [s[0]] + RemoveDots(s[1..])
  }

  /** The value of a string of decimal digits. */
  function DecimalValue(s: string): (n: nat)
    requires forall i :: 0 <= i < |s| ==> IsAsciiDigit(s[i])
    ensures |s| == 0 ==> n == 0
    decreases |s|
  {
    if |s| == 0 then 0
    else
      assert IsAsciiDigit(s[|s| - 1]);
      10 * DecimalValue(s[..|s| - 1]) + (s[|s| - 1] as int - '0' as int)
  }

  /** Leading zeros do not change a decimal value. */
  lemma {:induction false} DecimalLeadingZero(s: string)
    requires forall i :: 0 <= i < |s| ==> IsAsciiDigit(s[i])
    ensures DecimalValue("0" + s) == DecimalValue(s)
    decreases |s|
  {
    if |s| > 0 {
      var t := "0" + s;
      assert t[..|t| - 1] == "0" + s[..|s| - 1];
      DecimalLeadingZero(s[..|s| - 1]);
    }
  }

  /** Whether `s` is a bool literal for `_set_config`: "true" or "false" in any case. */
  predicate IsBoolText(s: string) {
    Lower(s) == "true" || Lower(s) == "false"
  }

  /** Whether `s` takes the float branch: it holds a dot and is all digits once
      the dots are removed. */
  predicate IsDottedDigits(s: string) {
    '.' in s && IsDigits(RemoveDots(s))
  }

  /** The typed value `_set_config` stores for the words after the path; None
      where `float()` raises (dotted digits with more than one dot). */
  function ClassifyValue(parts: seq<string>): (r: Option<Value>)
    ensures var s := Join(parts, " ");
      && (IsBoolText(s) ==> r == Some(Bool(Lower(s) == "true")))
      && (!IsBoolText(s) && IsDigits(s) ==> r == Some(Int(DecimalValue(s))))
      && (!IsBoolText(s) && !IsDigits(s) && IsDottedDigits(s) ==>
            (r.Some? <==> Count(s, '.') == 1) && (r.Some? ==> r == Some(Float(s))))
      && (!IsBoolText(s) && !IsDigits(s) && !IsDottedDigits(s) ==> r == Some(Str(s)))
    ensures r.Some? ==> !r.value.Object? && !r.value.List? && !r.value.Null?
  {
    var s := Join(parts, " ");
    if IsBoolText(s) then Some(Bool(Lower(s) == "true"))
    else if IsDigits(s) then Some(Int(DecimalValue(s)))
    else if IsDottedDigits(s) then
      if Count(s, '.') == 1 then Some(Float(s)) else None
    else Some(Str(s))
  }

  /** A value of digits only never reads as a float or a string, and a value
      that is not a bool, digits or dotted digits is stored verbatim. */
  lemma ClassificationPriority(parts: seq<string>)
    ensures var s := Join(parts, " ");
      IsDigits(s) ==> ClassifyValue(parts).Some? && (ClassifyValue(parts).value.Int? || ClassifyValue(parts).value.Bool?)
    ensures var s := Join(parts, " ");
      ClassifyValue(parts) == Some(Str(s)) <==> !IsBoolText(s) && !IsDigits(s) && !IsDottedDigits(s)
  {
  }

  /** The result of walking the path and writing the leaf. */
  datatype Assignment =
    | Assigned(config: Value, previous: Value)
    | NoPath  // an intermediate key is missing
    | NoLeaf  // the last key is missing
    | Broken  // a TypeError: a key applied to a string, list or scalar

  /** The navigation loop over `keys[:-1]` and the leaf write of `_set_config`.
      `key not in node` follows Python: a substring test on a string and a
      membership test on a list, after which subscripting raises. */
  function AssignAt(node: Value, keys: seq<string>, v: Value): (r: Assignment)
    requires |keys| >= 1
    decreases |keys|
  {
    match PyIn(keys[0], node)
    case None => Broken
    case Some(false) => if |keys| == 1 then NoLeaf else NoPath
    case Some(true) =>
      if !node.Object? then Broken
      else
        var child := Get(node.fields, keys[0]).value;
        if |keys| == 1 then Assigned(Object(SetField(node.fields, keys[0], v)), child)
        else
          match AssignAt(child, keys[1..], v)
          case Assigned(c, prev) => Assigned(Object(SetField(node.fields, keys[0], c)), prev)
          case other => other
  }

  /** The write succeeds exactly when reading the same path finds a value,
      and the value it replaces is that one. */
  lemma {:induction false} AssignIffFound(node: Value, keys: seq<string>, v: Value)
    requires |keys| >= 1
    ensures AssignAt(node, keys, v).Assigned? <==> Lookup(node, keys).Present?
    ensures AssignAt(node, keys, v).Assigned? ==> AssignAt(node, keys, v).previous == Lookup(node, keys).v
    decreases |keys|
  {
    if |keys| > 1 && node.Object? && HasKey(node.fields, keys[0]) {
      AssignIffFound(Get(node.fields, keys[0]).value, keys[1..], v);
    }
  }

  /** After the write, reading the path yields the new value. */
  lemma {:induction false} AssignThenLookup(node: Value, keys: seq<string>, v: Value)
    requires |keys| >= 1
    requires AssignAt(node, keys, v).Assigned?
    ensures Lookup(AssignAt(node, keys, v).config, keys) == Present(v)
    decreases |keys|
  {
    if |keys| > 1 {
      AssignThenLookup(Get(node.fields, keys[0]).value, keys[1..], v);
    }
  }

  /** The path up to its last key leads to an object that lacks the last key. */
  predicate LeafMissing(v: Value, keys: seq<string>) {
    && |keys| >= 1
    && At(v, keys[..|keys| - 1]).Some?
    && At(v, keys[..|keys| - 1]).value.Object?
    && !HasKey(At(v, keys[..|keys| - 1]).value.fields, keys[|keys| - 1])
  }

  /** A key missing before the last one stops the navigation: the path is
      invalid, whatever follows. */
  lemma {:induction false} AssignMissingPath(node: Value, keys: seq<string>, v: Value)
    requires |keys| >= 1
    ensures MissingAlong(node, keys[..|keys| - 1]) ==> AssignAt(node, keys, v) == NoPath
    decreases |keys|
  {
    if !MissingAlong(node, keys[..|keys| - 1]) {
      return;
    }
    var n := |keys| - 1;
    var init := keys[..n];
    var k :| 0 <= k < n && At(node, init[..k]).Some? && At(node, init[..k]).value.Object?
      && !HasKey(At(node, init[..k]).value.fields, init[k]);
    if k == 0 {
      assert init[..0] == [];
    } else {
      assert init[..1][1..] == [];
      assert node.Object? && HasKey(node.fields, keys[0]);
      var child := Get(node.fields, keys[0]).value;
      var tail := keys[1..];
      assert tail[..|tail| - 1] == init[1..];
      assert init[..k][0] == keys[0];
      assert init[..k][1..] == init[1..][..k - 1];
      assert init[1..][k - 1] == init[k];
      AssignMissingPath(child, tail, v);
    }
  }

  /** The path up to the last key leads to an object without that key: the
      setting is invalid. */
  lemma {:induction false} AssignMissingLeaf(node: Value, keys: seq<string>, v: Value)
    requires |keys| >= 1
    ensures LeafMissing(node, keys) ==> AssignAt(node, keys, v) == NoLeaf
    decreases |keys|
  {
    if !LeafMissing(node, keys) {
      return;
    }
    var n := |keys| - 1;
    var init := keys[..n];
    if n == 0 {
      assert init == [];
    } else {
      assert init[0] == keys[0] && init[1..] == keys[1..][..n - 1];
      var child := Get(node.fields, keys[0]).value;
      var tail := keys[1..];
      assert At(node, init) == At(child, init[1..]);
      assert tail[|tail| - 1] == keys[n];
      AssignMissingLeaf(child, tail, v);
    }
  }

  /** `q` leaves the path `keys` at some position before either ends. */
  predicate Diverges(q: seq<string>, keys: seq<string>) {
    exists i :: 0 <= i < |q| && i < |keys| && q[i] != keys[i]
  }

  /** The write changes nothing a diverging path can reach. */
  lemma {:induction false} AssignKeepsOthers(node: Value, keys: seq<string>, v: Value, q: seq<string>)
    requires |keys| >= 1
    requires AssignAt(node, keys, v).Assigned?
    requires Diverges(q, keys)
    ensures Lookup(AssignAt(node, keys, v).config, q) == Lookup(node, q)
    decreases |keys|
  {
    var fields := node.fields;
    var child := Get(fields, keys[0]).value;
    var r := AssignAt(node, keys, v);
    var newChild := if |keys| == 1 then v else AssignAt(child, keys[1..], v).config;
    assert r.config == Object(SetField(fields, keys[0], newChild));
    LookupThroughSet(fields, keys[0], newChild, q);
    if q[0] == keys[0] {
      DivergesTail(q, keys);
      AssignKeepsOthers(child, keys[1..], v, q[1..]);
    }
  }

  /** Reading a path in an object after one field was set. */
  lemma LookupThroughSet(fields: Fields, k: string, c: Value, q: seq<string>)
    requires HasKey(fields, k) && |q| > 0
    ensures q[0] == k ==> Lookup(Object(SetField(fields, k, c)), q) == Lookup(c, q[1..])
    ensures q[0] != k ==> Lookup(Object(SetField(fields, k, c)), q) == Lookup(Object(fields), q)
  {
    var g := SetField(fields, k, c);
    if q[0] == k {
      assert PySubscript(Object(g), k) == Found(c);
    } else {
      assert Get(g, q[0]) == Get(fields, q[0]);
      assert PySubscript(Object(g), q[0]) == PySubscript(Object(fields), q[0]);
    }
  }

  /** Paths that agree on their first key diverge later. */
  lemma DivergesTail(q: seq<string>, keys: seq<string>)
    requires Diverges(q, keys) && |q| > 0 && |keys| > 0 && q[0] == keys[0]
    ensures |q| > 1 && |keys| > 1 && Diverges(q[1..], keys[1..])
  {
    var i :| 0 <= i < |q| && i < |keys| && q[i] != keys[i];
    assert q[1..][i - 1] != keys[1..][i - 1];
  }

  /** How `_set_config` ended. */
  datatype SetOutcome =
    | Updated(previous: Value, stored: Value)
    | InvalidPath
    | InvalidSetting(key: string)
    | SaveFailed  // writing the file failed and the old value was put back
    | Error       // an exception reached the outer handler

  datatype SetResult = SetResult(config: Value, outcome: SetOutcome)

  /** `_set_config(path, parts)`; `saved` is whether writing the file succeeded. */
  function SetConfig(config: Value, path: string, parts: seq<string>, saved: bool): (r: SetResult)
    ensures !r.outcome.Updated? ==> r.config == config
    ensures r.outcome.Updated? ==> saved && ClassifyValue(parts) == Some(r.outcome.stored)
    ensures r.outcome.InvalidSetting? ==> r.outcome.key == PathKeys(path)[|PathKeys(path)| - 1]
    ensures ClassifyValue(parts).None? ==> r.outcome.Error?
    ensures ClassifyValue(parts).Some? && !saved && GetConfig(config, path).Present? ==> r.outcome == SaveFailed
    ensures ClassifyValue(parts).Some? && MissingAlong(config, PathKeys(path)[..|PathKeys(path)| - 1]) ==>
      r.outcome == InvalidPath
    ensures ClassifyValue(parts).Some? && LeafMissing(config, PathKeys(path)) ==>
      r.outcome == InvalidSetting(PathKeys(path)[|PathKeys(path)| - 1])
  {
    match ClassifyValue(parts)
    case None => SetResult(config, Error)
    case Some(v) =>
      var keys := PathKeys(path);
      AssignIffFound(config, keys, v);
      AssignMissingPath(config, keys, v);
      AssignMissingLeaf(config, keys, v);
      match AssignAt(config, keys, v)
      case Assigned(c, prev) => if saved then SetResult(c, Updated(prev, v)) else SetResult(config, SaveFailed)
      case NoPath => SetResult(config, InvalidPath)
      case NoLeaf => SetResult(config, InvalidSetting(keys[|keys| - 1]))
      case Broken => SetResult(config, Error)
  }

  /** A setting is updated exactly when the value parses, the path already
      reads a value and the file is written; the old value reported is the one
      read. Paths are never created. */
  lemma SetUpdatesIffFound(config: Value, path: string, parts: seq<string>, saved: bool)
    ensures SetConfig(config, path, parts, saved).outcome.Updated? <==>
      saved && ClassifyValue(parts).Some? && GetConfig(config, path).Present?
    ensures SetConfig(config, path, parts, saved).outcome.Updated? ==>
      SetConfig(config, path, parts, saved).outcome.previous == GetConfig(config, path).v
  {
    if ClassifyValue(parts).Some? {
      AssignIffFound(config, PathKeys(path), ClassifyValue(parts).value);
    }
  }

  /** Reading a setting right after updating it yields the new value, and
      every setting on a diverging path reads as before. */
  lemma SetThenGet(config: Value, path: string, parts: seq<string>, saved: bool, other: string)
    requires SetConfig(config, path, parts, saved).outcome.Updated?
    ensures var r := SetConfig(config, path, parts, saved);
      GetConfig(r.config, path) == Present(r.outcome.stored)
    ensures var r := SetConfig(config, path, parts, saved);
      Diverges(PathKeys(other), PathKeys(path)) ==> GetConfig(r.config, other) == GetConfig(config, other)
  {
    var v := ClassifyValue(parts).value;
    AssignThenLookup(config, PathKeys(path), v);
    if Diverges(PathKeys(other), PathKeys(path)) {
      AssignKeepsOthers(config, PathKeys(path), v, PathKeys(other));
    }
  }
}
