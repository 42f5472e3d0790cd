/** JSON values at the level of Python's `json.loads` / `json.dumps`
    results: objects are maps from keys to values. The text encoding is not
    modelled; a record's JSON form is its object. */
module Json {
  import opened Wrappers

  datatype Value =
    | Null
    | Bool(b: bool)
    | Int(i: int)
    | Str(s: string)
    | List(items: seq<Value>)
    | Object(fields: map<string, Value>)

  /** A list of strings as a JSON array. */
  function Strings(ss: seq<string>): (v: Value)
    ensures v.List? && |v.items| == |ss|
    ensures forall i :: 0 <= i < |ss| ==> v.items[i] == Str(ss[i])
  {
    List(seq(|ss|, i requires 0 <= i < |ss| => Str(ss[i])))
  }

  /** Reads back a JSON array of strings; any other value is refused. */
  function AsStrings(v: Value): (r: Option<seq<string>>)
    ensures r.Some? ==> v == Strings(r.value)
  {
    if v.List? && forall i :: 0 <= i < |v.items| ==> v.items[i].Str? then
      var ss := seq(|v.items|, i requires 0 <= i < |v.items| => v.items[i].s);
      assert Strings(ss).items == v.items;
      Some(ss)
    else None
  }

  /** Encoding a list of strings and reading it back is the identity. */
  lemma AsStringsOfStrings(ss: seq<string>)
    ensures AsStrings(Strings(ss)) == Some(ss)
  {
    var r := AsStrings(Strings(ss));
    assert r.Some?;
    assert r.value == ss;
  }
}
