/**
 * The header multimap of the HTTP layer: an ordered list of (name, value)
 * entries in which a name may occur several times. Names are held in their
 * canonical lower-case form, as the HTTP library stores them, so comparing
 * names for equality is the library's case-insensitive comparison.
 *
 * The map is a value: the proxy moves it from stage to stage and each
 * stage updates its own copy.
 */
module Headers {

  datatype Header = Header(name: string, value: string)

  datatype HeaderMap = HeaderMap(entries: seq<Header>) {

    /** Every value stored under `key`, in the order they were appended. */
    function GetAll(key: string): (vs: seq<string>)
      ensures |vs| <= |entries|
      ensures forall v :: v in vs <==> Header(key, v) in entries
      decreases |entries|
    {
      if entries == [] then []
      else
        var rest := HeaderMap(entries[1..]).GetAll(key);
        if entries[0].name == key then [entries[0].value] + rest else rest
    }

    /**
     * Adds one more value under `key`, after the values already there: the
     * new value ends `key`'s list and no other name's list changes.
     */
    function Append(key: string, value: string): (r: HeaderMap)
      ensures forall k :: r.GetAll(k) == GetAll(k) + (if k == key then [value] else [])
    {
      var r := HeaderMap(entries + [Header(key, value)]);
      forall k ensures r.GetAll(k) == GetAll(k) + (if k == key then [value] else []) {
        GetAllConcat(entries, [Header(key, value)], k);
        assert HeaderMap([Header(key, value)]).entries[1..] == [];
      }
      r
    }

    /** Drops every value stored under `key`: exactly the entries under other names remain. */
    function Remove(key: string): (r: HeaderMap)
      ensures forall hd :: hd in r.entries <==> hd in entries && hd.name != key
      decreases |entries|
    {
      if entries == [] then this
      else
        var rest := HeaderMap(entries[1..]).Remove(key);
        if entries[0].name == key then rest else HeaderMap([entries[0]] + rest.entries)
    }

    /** Appends each of `values` under `key`, in order. */
    function AppendAll(key: string, values: seq<string>): HeaderMap
      decreases |values|
    {
      if values == [] then this
      else Append(key, values[0]).AppendAll(key, values[1..])
    }
  }

  const EMPTY: HeaderMap := HeaderMap([])

  lemma {:induction false} GetAllConcat(a: seq<Header>, b: seq<Header>, key: string)
    ensures HeaderMap(a + b).GetAll(key) == HeaderMap(a).GetAll(key) + HeaderMap(b).GetAll(key)
    decreases |a|
  {
    if a == [] {
      assert a + b == b;
    } else {
      assert (a + b)[1..] == a[1..] + b;
      GetAllConcat(a[1..], b, key);
    }
  }

  /** Removing a name empties its list and leaves every other name's list as it was. */
  lemma {:induction false} GetAllRemove(h: HeaderMap, name: string, key: string)
    ensures h.Remove(name).GetAll(key) == if key == name then [] else h.GetAll(key)
    decreases |h.entries|
  {
    if h.entries != [] {
      var tail := HeaderMap(h.entries[1..]);
      GetAllRemove(tail, name, key);
      if h.entries[0].name != name {
        var r := HeaderMap([h.entries[0]] + tail.Remove(name).entries);
        assert r.entries[1..] == tail.Remove(name).entries;
      }
    }
  }

  /** Appending a list of values under one name extends that name's list by exactly those values. */
  lemma {:induction false} GetAllAppendAll(h: HeaderMap, name: string, values: seq<string>, key: string)
    ensures h.AppendAll(name, values).GetAll(key)
         == h.GetAll(key) + (if key == name then values else [])
    decreases |values|
  {
    if values != [] {
      GetAllAppendAll(h.Append(name, values[0]), name, values[1..], key);
      if key == name {
        assert [values[0]] + values[1..] == values;
      }
    }
  }

  /**
   * Replacing a name's values by one value (remove, then append): that name
   * then has exactly the one value and no other name's list changes.
   */
  lemma ReplaceValues(h: HeaderMap, name: string, value: string, key: string)
    ensures h.Remove(name).Append(name, value).GetAll(key)
         == if key == name then [value] else h.GetAll(key)
  {
    GetAllRemove(h, name, key);
  }
}
