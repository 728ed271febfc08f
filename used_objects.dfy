/** The first half of `GenerateJsonFile`: the set of object names that some task lists. */
module UsedObjects {
  import opened Wrappers
  import opened Data

  /** The `usedObjects` set after the loop has visited the task entries of `doc`, or the
      exception raised by the first entry without a "list" array. */
  function Used(doc: Document<TaskEntry>): Result<set<string>, Error> {
    if doc == [] then Success({})
    else
      var used :- Used(doc[..|doc| - 1]);
      var entry := doc[|doc| - 1];
      match entry.1.list
      case None => Failure(MissingList(entry.0))
      case Some(tokens) => Success(used + set t | t in tokens)
  }

  /** Some task entry lists `token`. */
  ghost predicate Mentions(doc: Document<TaskEntry>, token: string) {
    exists i :: 0 <= i < |doc| && doc[i].1.list.Some? && token in doc[i].1.list.value
  }

  /** Add every token of every task entry's "list" to a set, one at a time. */
  method CollectUsedObjects(taskDoc: Document<TaskEntry>) returns (r: Result<set<string>, Error>)
    ensures r == Used(taskDoc)
  {
    var usedObjects: set<string> := {};
    for i := 0 to |taskDoc|
      invariant Used(taskDoc[..i]) == Success(usedObjects)
    {
      assert taskDoc[..i + 1][..i] == taskDoc[..i];
      var listArray := taskDoc[i].1.list;
      if listArray.None? {
        UsedFailurePersists(taskDoc, i + 1);
        return Failure(MissingList(taskDoc[i].0));
      }
      var tokens := listArray.value;
      ghost var before := usedObjects;
      for j := 0 to |tokens|
        invariant usedObjects == before + set t | t in tokens[..j]
      {
        assert tokens[..j + 1] == tokens[..j] + [tokens[j]];
        usedObjects := usedObjects + {tokens[j]};
      }
      assert tokens[..|tokens|] == tokens;
    }
    assert taskDoc[..|taskDoc|] == taskDoc;
    r := Success(usedObjects);
  }

  /** Once an entry without a list is reached, collecting fails with that entry's error. */
  lemma {:induction false} UsedFailurePersists(doc: Document<TaskEntry>, k: nat)
    requires k <= |doc| && Used(doc[..k]).Failure?
    ensures Used(doc) == Used(doc[..k])
  {
    if k < |doc| {
      var front := doc[..|doc| - 1];
      assert front[..k] == doc[..k];
      UsedFailurePersists(front, k);
    } else {
      assert doc[..k] == doc;
    }
  }

  /** Collecting succeeds exactly when every task entry has a list; otherwise it fails
      naming the first entry without one. */
  lemma {:induction false} UsedSucceeds(doc: Document<TaskEntry>)
    ensures Used(doc).Success? <==> forall i :: 0 <= i < |doc| ==> doc[i].1.list.Some?
    ensures Used(doc).Failure? ==>
              exists i :: 0 <= i < |doc| && doc[i].1.list.None? &&
                          Used(doc).error == MissingList(doc[i].0) &&
                          forall k :: 0 <= k < i ==> doc[k].1.list.Some?
  {
    if doc != [] {
      var front := doc[..|doc| - 1];
      UsedSucceeds(front);
      assert forall i :: 0 <= i < |front| ==> front[i] == doc[i];
    }
  }

  /** The collected set is the union of all lists: a name is in it exactly when some task
      entry lists it. Duplicates collapse and order plays no part. */
  lemma {:induction false} UsedIsUnion(doc: Document<TaskEntry>)
    requires Used(doc).Success?
    ensures forall t :: t in Used(doc).value <==> Mentions(doc, t)
  {
    if doc != [] {
      var front := doc[..|doc| - 1];
      var last := |doc| - 1;
      UsedIsUnion(front);
      forall t
        ensures t in Used(doc).value <==> Mentions(doc, t)
      {
        if Mentions(doc, t) {
          var i :| 0 <= i < |doc| && doc[i].1.list.Some? && t in doc[i].1.list.value;
          if i < last {
            assert front[i] == doc[i];
          }
        }
        if Mentions(front, t) {
          var i :| 0 <= i < |front| && front[i].1.list.Some? && t in front[i].1.list.value;
          assert doc[i] == front[i];
        }
      }
    }
  }

  /** Two task documents with the same entries, in any order and with any repetition,
      use the same objects. */
  lemma UsedOrderIrrelevant(doc: Document<TaskEntry>, other: Document<TaskEntry>)
    requires forall e :: e in doc <==> e in other
    requires Used(doc).Success?
    ensures Used(other) == Used(doc)
  {
    UsedSucceeds(doc);
    UsedSucceeds(other);
    forall i | 0 <= i < |other|
      ensures other[i].1.list.Some?
    {
      assert other[i] in doc;
    }
    UsedIsUnion(doc);
    UsedIsUnion(other);
    forall t
      ensures Mentions(doc, t) <==> Mentions(other, t)
    {
      if Mentions(doc, t) {
        var i :| 0 <= i < |doc| && doc[i].1.list.Some? && t in doc[i].1.list.value;
        assert doc[i] in other;
      }
      if Mentions(other, t) {
        var i :| 0 <= i < |other| && other[i].1.list.Some? && t in other[i].1.list.value;
        assert other[i] in doc;
      }
    }
    assert Used(other).value == Used(doc).value;
  }

  /** Some task entry lists `token`: the last entry's list, or one of the earlier ones. */
  lemma MentionsSnoc(doc: Document<TaskEntry>, token: string)
    requires doc != []
    ensures Mentions(doc, token) <==>
              Mentions(doc[..|doc| - 1], token) ||
              (doc[|doc| - 1].1.list.Some? && token in doc[|doc| - 1].1.list.value)
  {
    var front := doc[..|doc| - 1];
    if Mentions(front, token) {
      var i :| 0 <= i < |front| && front[i].1.list.Some? && token in front[i].1.list.value;
      assert doc[i] == front[i];
    }
    if Mentions(doc, token) {
      var i :| 0 <= i < |doc| && doc[i].1.list.Some? && token in doc[i].1.list.value;
      if i < |front| {
        assert front[i] == doc[i];
      }
    }
  }
}
