/** JSON-like Python values (what `json.loads` and the TOML reader produce):
    dictionaries keep insertion order, as Python's `dict` does. */
module Json {
  import opened Base
  import opened PyFloat
  import opened Text

  datatype Value =
    | Null
    | Bool(b: bool)
    | Int(i: int)
    | Float(f: PyFloat.Float)
    | Str(s: string)
    | List(items: seq<Value>)
    | Dict(entries: seq<(string, Value)>)

  function Keys(entries: seq<(string, Value)>): (ks: seq<string>)
    ensures |ks| == |entries|
    ensures forall i :: 0 <= i < |entries| ==> ks[i] == entries[i].0
  {
    seq(|entries|, i requires 0 <= i < |entries| => entries[i].0)
  }

  predicate HasKey(entries: seq<(string, Value)>, key: string) {
    exists i :: 0 <= i < |entries| && entries[i].0 == key
  }

  /** `d[key]` on a dict given by its entries; `None` is Python's KeyError. */
  function Lookup(entries: seq<(string, Value)>, key: string): (r: Option<Value>)
    ensures r.None? <==> !HasKey(entries, key)
    ensures r.Some? ==> exists i :: 0 <= i < |entries| && entries[i] == (key, r.value)
  {
    if |entries| == 0 then None
    else if entries[0].0 == key then Some(entries[0].1)
    else
      var r := Lookup(entries[1..], key);
      assert HasKey(entries, key) ==> entries[0].0 == key || HasKey(entries[1..], key) by {
        if HasKey(entries, key) {
          var i :| 0 <= i < |entries| && entries[i].0 == key;
          if i > 0 {
            assert entries[1..][i - 1].0 == key;
          }
        }
      }
      assert r.Some? ==> exists i :: 0 <= i < |entries| && entries[i] == (key, r.value) by {
        if r.Some? {
          var i :| 0 <= i < |entries[1..]| && entries[1..][i] == (key, r.value);
          assert entries[i + 1] == (key, r.value);
        }
      }
      r
  }

  /** `d[key] = value`: replaces the value in place when the key is present,
      appends otherwise (Python keeps the original insertion position). */
  function Put(entries: seq<(string, Value)>, key: string, value: Value): (r: seq<(string, Value)>)
    ensures |r| == if HasKey(entries, key) then |entries| else |entries| + 1
  {
    if |entries| == 0 then [(key, value)]
    else if entries[0].0 == key then [(key, value)] + entries[1..]
    else
      HasKeyTail(entries, key);
      [entries[0]] + Put(entries[1..], key, value)
  }

  lemma HasKeyTail(entries: seq<(string, Value)>, key: string)
    requires |entries| > 0 && entries[0].0 != key
    ensures HasKey(entries, key) <==> HasKey(entries[1..], key)
  {
    if HasKey(entries, key) {
      var i :| 0 <= i < |entries| && entries[i].0 == key;
      assert entries[1..][i - 1].0 == key;
    }
    if HasKey(entries[1..], key) {
      var i :| 0 <= i < |entries[1..]| && entries[1..][i].0 == key;
      assert entries[i + 1].0 == key;
    }
  }

  /** After `d[key] = value`, `d[key]` is `value` and every other key reads
      as before. */
  lemma {:induction false} PutLookup(entries: seq<(string, Value)>, key: string, value: Value, k: string)
    ensures Lookup(Put(entries, key, value), k) == if k == key then Some(value) else Lookup(entries, k)
    decreases |entries|
  {
    if |entries| > 0 && entries[0].0 != key {
      PutLookup(entries[1..], key, value, k);
    }
  }

  /** Assignment keeps the key order, adding a new key at the end. */
  lemma {:induction false} PutKeys(entries: seq<(string, Value)>, key: string, value: Value)
    ensures Keys(Put(entries, key, value)) == if HasKey(entries, key) then Keys(entries) else Keys(entries) + [key]
    decreases |entries|
  {
    if |entries| > 0 && entries[0].0 != key {
      HasKeyTail(entries, key);
      PutKeys(entries[1..], key, value);
      var rest := Put(entries[1..], key, value);
      assert Keys([entries[0]] + rest) == [entries[0].0] + Keys(rest);
      assert Keys(entries) == [entries[0].0] + Keys(entries[1..]);
    } else if |entries| > 0 {
      assert HasKey(entries, key);
      assert Keys([(key, value)] + entries[1..]) == [key] + Keys(entries[1..]);
      assert Keys(entries) == [key] + Keys(entries[1..]);
    } else {
      assert !HasKey(entries, key);
    }
  }

  /** A dictionary built by assignments never holds a key twice. */
  lemma PutDistinct(entries: seq<(string, Value)>, key: string, value: Value)
    requires Distinct(Keys(entries))
    ensures Distinct(Keys(Put(entries, key, value)))
  {
    PutKeys(entries, key, value);
    if !HasKey(entries, key) {
      var ks := Keys(entries) + [key];
      forall i, j | 0 <= i < j < |ks|
        ensures ks[i] != ks[j]
      {
        if j == |ks| - 1 {
          assert entries[i].0 == ks[i];
        }
      }
    }
  }

  /** `d.get(key)` on any value: `None` (JSON null) unless it is a dict that
      has the key. */
  function Get(v: Value, key: string): Value {
    if v.Dict? then Lookup(v.entries, key).GetOr(Null) else Null
  }

  /** Python's truth value. */
  predicate Truthy(v: Value) {
    match v
    case Null => false
    case Bool(b) => b
    case Int(i) => i != 0
    case Float(f) => f != Finite(0.0)
    case Str(s) => |s| > 0
    case List(items) => |items| > 0
    case Dict(entries) => |entries| > 0
  }

  /** Python's `float(v)`: `bool` is an `int`, strings are parsed, and
      everything else raises TypeError. */
  function ToFloat(v: Value): (r: Result<PyFloat.Float>)
    ensures r.Err? ==> (r.error.kind == TypeError <==> !v.Str?)
    ensures r.Err? ==> (v.Null? || v.List? || v.Dict? || v.Str?)
    ensures v.Null? || v.List? || v.Dict? ==> r.Err?
    ensures r.Err? && v.Str? ==> r.error.kind == ValueError
  {
    match v
    case Null => Raise(TypeError, "float() argument must be a string or a real number")
    case Bool(b) => Ok(Finite(if b then 1.0 else 0.0))
    case Int(i) => Ok(Finite(i as real))
    case Float(f) => Ok(f)
    case Str(s) =>
      (match ParseFloat(s)
       case Some(f) => Ok(f)
       case None => Raise(ValueError, "could not convert string to float"))
    case List(_) => Raise(TypeError, "float() argument must be a string or a real number")
    case Dict(_) => Raise(TypeError, "float() argument must be a string or a real number")
  }
}
