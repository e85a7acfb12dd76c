/**
 * Updating a map entry in place, from the borrow-checker lesson: set the
 * value of a key to 10 when it is present, otherwise insert it with 1. The
 * lesson writes the update three ways: `get_mut` with `insert` in the other
 * branch, a `found` flag, and the entry API.
 */
module Upsert {

  /** The map of the lesson: `&str` keys, `i32` values. */
  type Counts = map<string, int>

  /** What each of the three updates leaves in the map. */
  function SetOrInsert(m: Counts, key: string): (r: Counts)
    ensures key in r
    ensures r[key] == if key in m then 10 else 1
    ensures forall k :: k != key ==> (k in r <==> k in m)
    ensures forall k :: k != key && k in m ==> r[k] == m[k]
  {
    if key in m then m[key := 10] else m[key := 1]
  }

  /** The map grows by one entry just when the key was absent. */
  lemma SetOrInsertSize(m: Counts, key: string)
    ensures |SetOrInsert(m, key)| == if key in m then |m| else |m| + 1
  {
    if key in m {
      assert SetOrInsert(m, key).Keys == m.Keys;
    } else {
      assert SetOrInsert(m, key).Keys == m.Keys + {key};
    }
  }

  /** Doing the update a second time changes nothing more than setting the value to 10. */
  lemma SetOrInsertTwice(m: Counts, key: string)
    ensures SetOrInsert(SetOrInsert(m, key), key) == SetOrInsert(m, key)[key := 10]
  {
  }

  /** `if let Some(r) = m.get_mut(key) { *r = 10 } else { m.insert(key, 1) }`. */
  method GetMutOrInsert(m: Counts, key: string) returns (m': Counts)
    ensures m' == SetOrInsert(m, key)
  {
    m' := m;
    if key in m' {
      m' := m'[key := 10];
    } else {
      m' := m'[key := 1];
    }
  }

  /** The workaround with a flag: the borrow ends with the first `if`, the insertion comes after. */
  method WithFoundFlag(m: Counts, key: string) returns (m': Counts)
    ensures m' == SetOrInsert(m, key)
  {
    m' := m;
    var found := false;
    if key in m' {
      m' := m'[key := 10];
      found := true;
    }
    if !found {
      m' := m'[key := 1];
    }
  }

  /** `m.entry(key)`: the slot of the key, filled or not. */
  datatype Entry = Occupied(key: string, value: int) | Vacant(key: string)

  function EntryOf(m: Counts, key: string): (e: Entry)
    ensures e.key == key
    ensures e.Occupied? <==> key in m
    ensures e.Occupied? ==> e.value == m[key]
  {
    if key in m then Occupied(key, m[key]) else Vacant(key)
  }

  /** `Occupied(e) => *e.into_mut() = 10`, `Vacant(e) => e.insert(1)`. */
  method ThroughEntry(m: Counts, key: string) returns (m': Counts)
    ensures m' == SetOrInsert(m, key)
  {
    m' := m;
    match EntryOf(m', key)
    case Occupied(k, _) =>
      m' := m'[k := 10];
    case Vacant(k) =>
      m' := m'[k := 1];
  }

  /**
   * The lesson's map `{"one": 1, "two": 2}` after each of the three updates of
   * "one" in turn: "one" holds 10 and "two" is untouched.
   */
  method Lesson() returns (m: Counts)
    ensures m == map["one" := 10, "two" := 2]
  {
    m := map[];
    m := m["one" := 1];
    m := m["two" := 2];
    m := GetMutOrInsert(m, "one");
    m := WithFoundFlag(m, "one");
    m := ThroughEntry(m, "one");
  }

  /** On a map without the key, every version inserts it with 1. */
  method Vacancy() returns (m: Counts)
    ensures m == map["two" := 2, "one" := 1]
  {
    m := ThroughEntry(map["two" := 2], "one");
  }
}
