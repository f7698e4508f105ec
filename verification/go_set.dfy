/**
 * The `Set` of datastruct/struct_test.go: a `map[string]struct{}` whose
 * values carry nothing, used as a set of strings. A Go map variable is
 * either nil or a made map; reading and deleting work on a nil map, but
 * storing into one panics.
 */
module GoSet {
  import opened Go

  /** `struct{}`: the zero-size placeholder value. */
  datatype Empty = Empty

  datatype Set = Nil | Made(entries: map<seq<byte>, Empty>)

  /** The strings the set holds. */
  function Members(s: Set): (keys: set<seq<byte>>) {
    if s.Nil? then {} else s.entries.Keys
  }

  /** `make(Set)`. */
  function MakeSet(): (s: Set)
    ensures s.Made? && Members(s) == {}
  {
    Made(map[])
  }

  /** `s.Has(key)`: the comma-ok lookup `_, ok := s[key]`. */
  function Has(s: Set, key: seq<byte>): (ok: bool)
    ensures ok <==> key in Members(s)
  {
    match s
    case Nil => false
    case Made(m) => key in m
  }

  /** `s.Add(key)`: `s[key] = struct{}{}`, which panics on a nil map. */
  function Add(s: Set, key: seq<byte>): (r: Outcome<Set>)
    ensures r.Ok? <==> s.Made?
    ensures r.Ok? ==> r.value.Made? && Members(r.value) == Members(s) + {key}
  {
    match s
    case Nil => Panic("assignment to entry in nil map")
    case Made(m) => Ok(Made(m[key := Empty]))
  }

  /** `s.del(key)`: `delete(s, key)`, a no-op on a nil map or a missing key. */
  function Del(s: Set, key: seq<byte>): (r: Set)
    ensures r.Made? == s.Made?
    ensures Members(r) == Members(s) - {key}
  {
    match s
    case Nil => Nil
    case Made(m) => Made(m - {key})
  }

  /** After `Add(key)`, `Has` answers yes for `key` and as before for every
      other string. */
  lemma HasAfterAdd(s: Set, key: seq<byte>, other: seq<byte>)
    requires s.Made?
    ensures Add(s, key).Ok?
    ensures Has(Add(s, key).value, other) <==> other == key || Has(s, other)
  {
  }

  /** After `del(key)`, `Has` answers no for `key` and as before for every
      other string. */
  lemma HasAfterDel(s: Set, key: seq<byte>, other: seq<byte>)
    ensures Has(Del(s, key), other) <==> other != key && Has(s, other)
  {
  }

  /** Adding a member again changes nothing. */
  lemma AddIdempotent(s: Set, key: seq<byte>)
    requires s.Made?
    ensures Add(s, key).Ok? && Add(Add(s, key).value, key) == Add(s, key)
  {
    var m := s.entries;
    assert m[key := Empty][key := Empty] == m[key := Empty];
  }

  /** Deleting a string that is not there changes nothing. */
  lemma DelAbsent(s: Set, key: seq<byte>)
    requires !Has(s, key)
    ensures Del(s, key) == s
  {
    if s.Made? {
      assert s.entries - {key} == s.entries;
    }
  }

  /** Adding a new string and deleting it again restores the set. */
  lemma DelUndoesAdd(s: Set, key: seq<byte>)
    requires s.Made? && !Has(s, key)
    ensures Add(s, key).Ok? && Del(Add(s, key).value, key) == s
  {
    assert s.entries[key := Empty] - {key} == s.entries;
  }

  /**
   * `TestSet`: add "Tom" and "Sam" to a made set, ask for "Tom", delete
   * "Sam", then ask for "Jack" and "Sam". The answers are the three
   * `Println` outputs.
   */
  method TestSet() returns (tom: bool, jack: bool, sam: bool)
    ensures tom && !jack && !sam
  {
    var s := MakeSet();
    var r := Add(s, "Tom");
    s := r.value;
    r := Add(s, "Sam");
    s := r.value;
    tom := Has(s, "Tom");
    s := Del(s, "Sam");
    jack := Has(s, "Jack");
    sam := Has(s, "Sam");
  }
}
