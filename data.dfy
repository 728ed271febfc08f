/** The entities the report builder reads: the reward table and the two JSON documents. */
module Data {
  import opened Wrappers

  /** .NET `int`: the three reward numbers are 32-bit signed integers. */
  newtype int32 = x: int | -0x8000_0000 <= x < 0x8000_0000

  /** The exceptions that abort a run, one constructor per cause. */
  datatype Error =
    | MissingColumn                  // columns[i] past the end of a split rewards line
    | NotAnInteger                   // int.Parse on a field that is not an integer
    | Overflow                       // int.Parse on an integer outside the int32 range
    | MissingList(listName: string)  // a task entry without a "list" array
    | MissingReward(objectName: string)  // an object entry without a "reward" field
    | UnknownRewardKey(key: string)  // a reward key absent from the rewards table

  /** The tuple `(money, details, reputation)` stored for one reward key. */
  datatype Reward = Reward(money: int32, details: int32, reputation: int32)

  /** The `items` dictionary: reward key to reward values. */
  type Items = map<string, Reward>

  /** A top-level entry of the task document; `list` is None when the entry has no "list" array.
      Each token is the string form (`JToken.ToString()`) of an element of that array. */
  datatype TaskEntry = TaskEntry(list: Option<seq<string>>)

  /** A top-level entry of the object document; only its "reward" field is read. */
  datatype ObjectEntry = ObjectEntry(reward: Option<string>)

  /** A JSON object as the program sees it: its properties, in document order. */
  type Document<V> = seq<(string, V)>

  /** The property names of a document, in order. */
  function Names<V>(doc: Document<V>): seq<string> {
    seq(|doc|, i requires 0 <= i < |doc| => doc[i].0)
  }

  /** A JSON object never holds two properties with the same name. */
  ghost predicate UniqueNames<V>(doc: Document<V>) {
    forall i, j :: 0 <= i < j < |doc| ==> doc[i].0 != doc[j].0
  }

  /** `JObject.TryGetValue(name, out value)`: the value of the property called `name`, if any. */
  function Find<V>(doc: Document<V>, name: string): (r: Option<V>)
    ensures r.Some? <==> name in Names(doc)
    ensures r.Some? ==> (name, r.value) in doc
  {
    if doc == [] then None
    else if doc[0].0 == name then
      assert Names(doc)[0] == name;
      Some(doc[0].1)
    else
      assert Names(doc) == [doc[0].0] + Names(doc[1..]);
      Find(doc[1..], name)
  }

  lemma NamesSnoc<V>(doc: Document<V>, p: (string, V))
    ensures Names(doc + [p]) == Names(doc) + [p.0]
  {
  }

  /** Looking a name up in a longer document: an earlier property wins. */
  lemma {:induction false} FindSnoc<V>(doc: Document<V>, p: (string, V), name: string)
    ensures Find(doc + [p], name) ==
              if name in Names(doc) then Find(doc, name)
              else if p.0 == name then Some(p.1) else None
  {
    if doc != [] {
      assert (doc + [p])[1..] == doc[1..] + [p];
      assert Names(doc) == [doc[0].0] + Names(doc[1..]);
      FindSnoc(doc[1..], p, name);
    }
  }

  /** In a document with unique names, `Find` returns the value stored at a name's position. */
  lemma {:induction false} FindUnique<V>(doc: Document<V>, i: nat)
    requires UniqueNames(doc) && i < |doc|
    ensures Find(doc, doc[i].0) == Some(doc[i].1)
  {
    if i > 0 {
      assert doc[0].0 != doc[i].0;
      assert doc[1..][i - 1] == doc[i];
      FindUnique(doc[1..], i - 1);
    }
  }
}
