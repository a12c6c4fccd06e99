/**
 * `instanceSettings`: every `data-*` attribute of the accordion element is
 * stored in a settings object under the path its camel-cased name spells
 * with `__` between the segments (`breakpoints__767__navigationType`).
 * Intermediate objects are created on demand; a falsy value in the way is
 * replaced by an object, while a truthy primitive in the way makes the
 * property assignment throw (class code runs in strict mode). The attribute
 * parser `wm$.parseAttr` is passed in as a function.
 */
module Settings {
  import opened Wrappers
  import opened Text

  /** The primitive values `parseAttr` can produce. */
  datatype Prim = Bool(b: bool) | Num(n: int) | Str(s: string) | Null

  datatype Value = Obj(fields: map<string, Value>) | Leaf(p: Prim)

  /** JavaScript truthiness; every object is truthy. */
  predicate Truthy(v: Value) {
    match v
    case Obj(_) => true
    case Leaf(p) =>
      match p
      case Bool(b) => b
      case Num(n) => n != 0
      case Str(s) => s != ""
      case Null => false
  }

  /**
   * `current[key] || {}`: the field when it is truthy, else a fresh empty
   * object. An object already there is reused, not replaced.
   */
  function ChildOrEmpty(fields: map<string, Value>, key: string): (c: Value)
    ensures Truthy(c)
    ensures c.Leaf? ==> key in fields && c == fields[key]
    ensures key in fields && fields[key].Obj? ==> c == fields[key]
    ensures (key !in fields || !Truthy(fields[key])) ==> c == Obj(map[])
  {
    if key in fields && Truthy(fields[key]) then fields[key] else Obj(map[])
  }

  /**
   * `setNestedProperty` on an object's fields: `None` is the `TypeError`
   * thrown when a truthy primitive sits where an object is needed.
   */
  function SetPath(fields: map<string, Value>, keys: seq<string>, v: Value): (r: Option<map<string, Value>>)
    requires |keys| >= 1
    ensures r.Some? ==> r.value.Keys == fields.Keys + {keys[0]}
    ensures r.Some? ==> forall k :: k in fields && k != keys[0] ==> r.value[k] == fields[k]
    ensures |keys| == 1 ==> r == Some(fields[keys[0] := v])
    decreases |keys|
  {
    if |keys| == 1 then Some(fields[keys[0] := v])
    else
      match ChildOrEmpty(fields, keys[0])
      case Leaf(_) => None
      case Obj(m) =>
        match SetPath(m, keys[1..], v)
        case None => None
        case Some(m2) => Some(fields[keys[0] := Obj(m2)])
  }

  /** Reading a path back. */
  function Get(fields: map<string, Value>, keys: seq<string>): Option<Value>
    requires |keys| >= 1
    decreases |keys|
  {
    if keys[0] !in fields then None
    else if |keys| == 1 then Some(fields[keys[0]])
    else
      match fields[keys[0]]
      case Leaf(_) => None
      case Obj(m) => Get(m, keys[1..])
  }

  /** A truthy primitive lies on the path before its last segment. */
  predicate Blocked(fields: map<string, Value>, keys: seq<string>)
    requires |keys| >= 1
    decreases |keys|
  {
    |keys| > 1 && keys[0] in fields &&
      match fields[keys[0]]
      case Leaf(_) => Truthy(fields[keys[0]])
      case Obj(m) => Blocked(m, keys[1..])
  }

  /** The write fails exactly when a truthy primitive blocks the path. */
  lemma {:induction false} SetPathFailsIff(fields: map<string, Value>, keys: seq<string>, v: Value)
    requires |keys| >= 1
    ensures SetPath(fields, keys, v).None? <==> Blocked(fields, keys)
    decreases |keys|
  {
    if |keys| > 1 {
      match ChildOrEmpty(fields, keys[0])
      case Leaf(_) =>
      case Obj(m) =>
        if keys[0] in fields && fields[keys[0]].Obj? {
          SetPathFailsIff(m, keys[1..], v);
        } else {
          EmptyNeverBlocked(keys[1..]);
          SetPathFailsIff(map[], keys[1..], v);
        }
    }
  }

  lemma EmptyNeverBlocked(keys: seq<string>)
    requires |keys| >= 1
    ensures !Blocked(map[], keys)
  {
  }

  /** A successful write can be read back at its path. */
  lemma {:induction false} SetThenGet(fields: map<string, Value>, keys: seq<string>, v: Value)
    requires |keys| >= 1 && SetPath(fields, keys, v).Some?
    ensures Get(SetPath(fields, keys, v).value, keys) == Some(v)
    decreases |keys|
  {
    if |keys| > 1 {
      match ChildOrEmpty(fields, keys[0])
      case Obj(m) =>
        SetThenGet(m, keys[1..], v);
    }
  }

  /** `other` leaves `keys` at some segment: the two share a prefix and then differ. */
  predicate Diverge(keys: seq<string>, other: seq<string>) {
    exists i :: 0 <= i < |keys| && i < |other| && keys[..i] == other[..i] && keys[i] != other[i]
  }

  /** Paths that diverge but share their first segment diverge after it. */
  lemma DivergeTail(keys: seq<string>, other: seq<string>)
    requires Diverge(keys, other) && |keys| >= 1 && |other| >= 1 && keys[0] == other[0]
    ensures |keys| > 1 && |other| > 1 && Diverge(keys[1..], other[1..])
  {
    var i :| 0 <= i < |keys| && i < |other| && keys[..i] == other[..i] && keys[i] != other[i];
    assert keys[1..][..i - 1] == other[1..][..i - 1];
    assert keys[1..][i - 1] == keys[i] && other[1..][i - 1] == other[i];
  }

  lemma EmptyGet(keys: seq<string>)
    requires |keys| >= 1
    ensures Get(map[], keys) == None
  {
  }

  /**
   * A write leaves every path that branches off its own path unchanged,
   * including the siblings nested under a shared prefix: the existing
   * object on the way is extended, not replaced.
   */
  lemma {:induction false} SetPathFrame(fields: map<string, Value>, keys: seq<string>, v: Value,
                                        other: seq<string>)
    requires |keys| >= 1 && |other| >= 1 && SetPath(fields, keys, v).Some?
    requires Diverge(keys, other)
    ensures Get(SetPath(fields, keys, v).value, other) == Get(fields, other)
    decreases |keys|
  {
    if keys[0] == other[0] {
      DivergeTail(keys, other);
      match ChildOrEmpty(fields, keys[0])
      case Obj(m) =>
        SetPathFrame(m, keys[1..], v, other[1..]);
        if !(keys[0] in fields && fields[keys[0]].Obj?) {
          EmptyGet(other[1..]);
        }
    }
  }

  /** `data-a__b` then `data-a__c`: both end up under `a`. */
  lemma SiblingsKept(v: Value, w: Value)
    ensures var first := SetPath(map[], ["a", "b"], v);
      && first.Some?
      && var second := SetPath(first.value, ["a", "c"], w);
      && second.Some?
      && Get(second.value, ["a", "b"]) == Some(v)
      && Get(second.value, ["a", "c"]) == Some(w)
  {
    var first := SetPath(map[], ["a", "b"], v);
    EmptyNeverBlocked(["a", "b"]);
    SetPathFailsIff(map[], ["a", "b"], v);
    SetThenGet(map[], ["a", "b"], v);
    var keys: seq<string> := ["a", "c"];
    var other: seq<string> := ["a", "b"];
    assert first.value["a"].Obj?;
    SetPathFailsIff(first.value, keys, w);
    SetThenGet(first.value, keys, w);
    assert keys[..1] == other[..1] && keys[1] != other[1];
    assert Diverge(keys, other);
    SetPathFrame(first.value, keys, w, other);
  }

  /** Writing the same path twice keeps the second value (the later attribute wins). */
  lemma {:induction false} SetTwice(fields: map<string, Value>, keys: seq<string>, v: Value, w: Value)
    requires |keys| >= 1 && SetPath(fields, keys, v).Some?
    ensures SetPath(SetPath(fields, keys, v).value, keys, w) == SetPath(fields, keys, w)
    decreases |keys|
  {
    if |keys| > 1 {
      match ChildOrEmpty(fields, keys[0])
      case Obj(m) =>
        var m2 := SetPath(m, keys[1..], v).value;
        var once := fields[keys[0] := Obj(m2)];
        assert SetPath(fields, keys, v).value == once;
        assert ChildOrEmpty(once, keys[0]) == Obj(m2);
        SetTwice(m, keys[1..], v, w);
        var rest := keys[1..];
        match SetPath(m, rest, w)
        case None =>
          assert SetPath(once, keys, w) == None;
        case Some(x) =>
          assert SetPath(once, keys, w) == Some(once[keys[0] := Obj(x)]);
          assert once[keys[0] := Obj(x)] == fields[keys[0] := Obj(x)];
    } else {
      assert fields[keys[0] := v][keys[0] := w] == fields[keys[0] := w];
    }
  }

  /**
   * The attribute name's path: its `__`-separated segments, each `__` taken
   * at its leftmost position, so no segment but the last ends in `_`.
   */
  function KeyPath(attrName: string): (keys: seq<string>)
    ensures |keys| >= 1
    ensures Join(keys, "__") == attrName
    ensures forall j :: 0 <= j < |keys| ==> !Contains(keys[j], "__")
    ensures forall j :: 0 <= j < |keys| - 1 ==> !Contains(keys[j] + "_", "__")
  {
    assert "__"[..1] == "_";
    Split(attrName, "__")
  }

  /** In `a___b` the first two underscores separate: the keys are `a` and `_b`. */
  lemma TripleUnderscore()
    ensures KeyPath("a___b") == ["a", "_b"]
  {
    assert "a___b"[0..2] == "a_";
    assert "a___b"[1..3] == "__";
    assert FindFrom("a___b", "__", 0) == Some(1);
    assert "a___b"[3..] == "_b";
    assert "_b"[0..2] == "_b";
    assert FindFrom("_b", "__", 0) == None;
    assert Split("_b", "__") == ["_b"];
    assert "a___b"[..1] == "a";
    assert Split("a___b", "__") == ["a"] + Split("_b", "__");
  }

  /**
   * The settings object built from the attributes in `Object.entries`
   * order, each value passed through `parse`; `None` when an assignment
   * throws.
   */
  function InstanceSettings(attrs: seq<(string, string)>, parse: string -> Value): (r: Option<map<string, Value>>)
    ensures attrs == [] ==> r == Some(map[])
    decreases |attrs|
  {
    if attrs == [] then Some(map[])
    else
      var n := |attrs| - 1;
      match InstanceSettings(attrs[..n], parse)
      case None => None
      case Some(fields) => SetPath(fields, KeyPath(attrs[n].0), parse(attrs[n].1))
  }

  /** A name without `__` is a single key: the attribute can always be stored, under its own name. */
  lemma PlainNameStored(fields: map<string, Value>, name: string, v: Value)
    requires !Contains(name, "__")
    ensures KeyPath(name) == [name]
    ensures SetPath(fields, KeyPath(name), v) == Some(fields[name := v])
  {
    var keys := KeyPath(name);
    if |keys| > 1 {
      assert Join(keys, "__") == keys[0] + "__" + Join(keys[1..], "__");
      assert OccursAt(name, "__", |keys[0]|) by {
        assert name[|keys[0]|..|keys[0]| + 2] == "__";
      }
    }
  }

  /** No attribute name holds `__`. */
  predicate PlainNames(attrs: seq<(string, string)>) {
    forall i :: 0 <= i < |attrs| ==> !Contains(attrs[i].0, "__")
  }

  /** Attribute `i` is the last one with its name. */
  predicate LastOfName(attrs: seq<(string, string)>, i: int)
    requires 0 <= i < |attrs|
  {
    forall j :: i < j < |attrs| ==> attrs[j].0 != attrs[i].0
  }

  /** The attribute names. */
  function Names(attrs: seq<(string, string)>): (names: set<string>)
    decreases |attrs|
  {
    if attrs == [] then {} else Names(attrs[..|attrs| - 1]) + {attrs[|attrs| - 1].0}
  }

  lemma {:induction false} NamesMeaning(attrs: seq<(string, string)>, k: string)
    ensures k in Names(attrs) <==> exists i :: 0 <= i < |attrs| && attrs[i].0 == k
    decreases |attrs|
  {
    if attrs != [] {
      var n := |attrs| - 1;
      NamesMeaning(attrs[..n], k);
      assert forall i :: 0 <= i < n ==> attrs[..n][i] == attrs[i];
    }
  }

  /** One more attribute with a plain name is stored under that name. */
  lemma PlainStep(attrs: seq<(string, string)>, parse: string -> Value)
    requires attrs != [] && !Contains(attrs[|attrs| - 1].0, "__")
    requires InstanceSettings(attrs[..|attrs| - 1], parse).Some?
    ensures var n := |attrs| - 1;
      InstanceSettings(attrs, parse) ==
        Some(InstanceSettings(attrs[..n], parse).value[attrs[n].0 := parse(attrs[n].1)])
  {
    var n := |attrs| - 1;
    PlainNameStored(InstanceSettings(attrs[..n], parse).value, attrs[n].0, parse(attrs[n].1));
  }

  /** With plain names the settings never throw, and hold one key per attribute name. */
  lemma {:induction false} PlainAttributes(attrs: seq<(string, string)>, parse: string -> Value)
    requires PlainNames(attrs)
    ensures InstanceSettings(attrs, parse).Some?
    ensures InstanceSettings(attrs, parse).value.Keys == Names(attrs)
    decreases |attrs|
  {
    if attrs != [] {
      var n := |attrs| - 1;
      var init := attrs[..n];
      assert forall i :: 0 <= i < n ==> init[i] == attrs[i];
      PlainAttributes(init, parse);
      PlainStep(attrs, parse);
    }
  }

  /** Each name holds the parsed value of the last attribute with that name. */
  lemma {:induction false} PlainAttributeValues(attrs: seq<(string, string)>, parse: string -> Value, i: nat)
    requires PlainNames(attrs) && i < |attrs| && LastOfName(attrs, i)
    ensures var r := InstanceSettings(attrs, parse);
      r.Some? && attrs[i].0 in r.value && r.value[attrs[i].0] == parse(attrs[i].1)
    decreases |attrs|
  {
    PlainAttributes(attrs, parse);
    var n := |attrs| - 1;
    var init := attrs[..n];
    assert forall j :: 0 <= j < n ==> init[j] == attrs[j];
    PlainAttributes(init, parse);
    PlainStep(attrs, parse);
    if i < n {
      assert LastOfName(init, i);
      PlainAttributeValues(init, parse, i);
    }
  }

  /**
   * `data-breakpoints__767__navigation-type="x"` after a truthy
   * `breakpoints` attribute throws; after a falsy one it nests.
   */
  lemma NestedUnderTruthyThrows(top: Prim, v: Value)
    ensures var keys := ["breakpoints", "767", "navigationType"];
      var fields := map["breakpoints" := Leaf(top)];
      (SetPath(fields, keys, v).None? <==> Truthy(Leaf(top)))
  {
  }
}
