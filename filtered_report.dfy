/** `GenerateJsonFile`: the object entries some task uses, each with its reward resolved
    through the rewards table. */
module FilteredReport {
  import opened Wrappers
  import opened Data
  import opened UsedObjects

  /** One property of filtered_file.json: `{"reward", "money", "details", "reputation"}`. */
  datatype ReportEntry = ReportEntry(reward: string, money: int32, details: int32, reputation: int32)

  /** The `filteredJson` object, property by property in insertion order. */
  type Report = Document<ReportEntry>

  /** The report entry for reward key `key`: the key and its three numbers. */
  function Resolve(key: string, items: Items): ReportEntry
    requires key in items
  {
    ReportEntry(key, items[key].money, items[key].details, items[key].reputation)
  }

  /** `report[name] = value` on a JObject: an existing property keeps its place and takes
      the new value; otherwise the property is added at the end. */
  function Put(report: Report, name: string, value: ReportEntry): Report {
    if report == [] then [(name, value)]
    else if report[0].0 == name then [(name, value)] + report[1..]
    else [report[0]] + Put(report[1..], name, value)
  }

  /** Setting a new name appends it; setting an existing one keeps every name in place. */
  lemma {:induction false} PutNames(report: Report, name: string, value: ReportEntry)
    ensures name !in Names(report) ==> Put(report, name, value) == report + [(name, value)]
    ensures name in Names(report) ==> Names(Put(report, name, value)) == Names(report)
  {
    if report != [] {
      assert Names(report) == [report[0].0] + Names(report[1..]);
      var r := Put(report, name, value);
      PutNames(report[1..], name, value);
      if report[0].0 != name {
        assert r[1..] == Put(report[1..], name, value);
        assert Names(r) == [report[0].0] + Names(r[1..]);
        if name !in Names(report) {
          assert report == [report[0]] + report[1..];
        }
      } else {
        assert Names(r) == [name] + Names(report[1..]);
      }
    }
  }

  /** After `report[name] = value`, looking `name` up gives `value`. */
  lemma {:induction false} PutFind(report: Report, name: string, value: ReportEntry)
    ensures Find(Put(report, name, value), name) == Some(value)
  {
    if report != [] && report[0].0 != name {
      var r := Put(report, name, value);
      assert r[0] == report[0] && r[1..] == Put(report[1..], name, value);
      PutFind(report[1..], name, value);
    }
  }

  /** Setting an existing property of a JSON object changes that property's value and
      nothing else: every other property keeps its place and its value. */
  lemma {:induction false} PutFrame(report: Report, name: string, value: ReportEntry, k: nat)
    requires UniqueNames(report) && name in Names(report) && k < |report|
    ensures |Put(report, name, value)| == |report|
    ensures Put(report, name, value)[k] == if report[k].0 == name then (name, value) else report[k]
  {
    var r := Put(report, name, value);
    if report[0].0 == name {
      assert k > 0 ==> report[0].0 != report[k].0;
    } else {
      var tail := report[1..];
      assert Names(report) == [report[0].0] + Names(tail);
      assert r[1..] == Put(tail, name, value);
      if k > 0 {
        assert tail[k - 1] == report[k];
        PutFrame(tail, name, value, k - 1);
      } else {
        assert name in Names(tail);
        PutFrame(tail, name, value, 0);
      }
    }
  }

  /** The loop body for one object entry: skipped unless used; otherwise its reward key
      must be present and known to the rewards table. */
  function FilterStep(report: Report, entry: (string, ObjectEntry), used: set<string>, items: Items)
    : Result<Report, Error>
  {
    if entry.0 !in used then Success(report)
    else match entry.1.reward
      case None => Failure(MissingReward(entry.0))
      case Some(key) =>
        if key !in items then Failure(UnknownRewardKey(key))
        else Success(Put(report, entry.0, Resolve(key, items)))
  }

  /** `filteredJson` after the loop has visited the entries of `doc`, or the first exception. */
  function Filtered(doc: Document<ObjectEntry>, used: set<string>, items: Items): Result<Report, Error> {
    if doc == [] then Success([])
    else
      var report :- Filtered(doc[..|doc| - 1], used, items);
      FilterStep(report, doc[|doc| - 1], used, items)
  }

  /** What `GenerateJsonFile` would write: the used set, then the filtered entries. */
  function JsonReport(taskDoc: Document<TaskEntry>, fileDoc: Document<ObjectEntry>, items: Items)
    : Result<Report, Error>
  {
    var used :- Used(taskDoc);
    Filtered(fileDoc, used, items)
  }

  /** The names of `names` that are in `used`, in their order. */
  function Select(names: seq<string>, used: set<string>): (r: seq<string>)
    ensures forall n :: n in r <==> n in names && n in used
  {
    if names == [] then []
    else
      var front := names[..|names| - 1];
      var last := names[|names| - 1];
      assert names == front + [last];
      if last in used then Select(front, used) + [last] else Select(front, used)
  }

  /** Walk the object entries in document order and keep the used ones. */
  method FilterEntries(fileDoc: Document<ObjectEntry>, usedObjects: set<string>, items: Items)
    returns (r: Result<Report, Error>)
    ensures r == Filtered(fileDoc, usedObjects, items)
  {
    var filteredJson: Report := [];
    for i := 0 to |fileDoc|
      invariant Filtered(fileDoc[..i], usedObjects, items) == Success(filteredJson)
    {
      assert fileDoc[..i + 1][..i] == fileDoc[..i];
      var fileEntry := fileDoc[i];
      if fileEntry.0 in usedObjects {
        var rewardKey := fileEntry.1.reward;
        if rewardKey.None? {
          FilteredFailurePersists(fileDoc, usedObjects, items, i + 1);
          return Failure(MissingReward(fileEntry.0));
        }
        if rewardKey.value !in items {
          FilteredFailurePersists(fileDoc, usedObjects, items, i + 1);
          return Failure(UnknownRewardKey(rewardKey.value));
        }
        var rewardData := items[rewardKey.value];
        filteredJson := Put(filteredJson, fileEntry.0,
          ReportEntry(rewardKey.value, rewardData.money, rewardData.details, rewardData.reputation));
      }
    }
    assert fileDoc[..|fileDoc|] == fileDoc;
    r := Success(filteredJson);
  }

  /** `GenerateJsonFile` without the file write: collect the used set, then filter. */
  method GenerateJsonFile(taskDoc: Document<TaskEntry>, fileDoc: Document<ObjectEntry>, items: Items)
    returns (r: Result<Report, Error>)
    ensures r == JsonReport(taskDoc, fileDoc, items)
  {
    var usedObjects := CollectUsedObjects(taskDoc);
    if usedObjects.Failure? {
      return Failure(usedObjects.error);
    }
    r := FilterEntries(fileDoc, usedObjects.value, items);
  }

  /** Once an entry has failed, filtering fails with that entry's error. */
  lemma {:induction false} FilteredFailurePersists(doc: Document<ObjectEntry>, used: set<string>,
                                                   items: Items, k: nat)
    requires k <= |doc| && Filtered(doc[..k], used, items).Failure?
    ensures Filtered(doc, used, items) == Filtered(doc[..k], used, items)
  {
    if k < |doc| {
      var front := doc[..|doc| - 1];
      assert front[..k] == doc[..k];
      FilteredFailurePersists(front, used, items, k);
    } else {
      assert doc[..k] == doc;
    }
  }

  /** Every used object entry can be resolved: it has a reward key the table knows. */
  ghost predicate Resolvable(doc: Document<ObjectEntry>, used: set<string>, items: Items) {
    forall i :: 0 <= i < |doc| && doc[i].0 in used ==>
      doc[i].1.reward.Some? && doc[i].1.reward.value in items
  }

  /** Filtering succeeds exactly when every used object entry can be resolved. */
  lemma {:induction false} FilteredSucceeds(doc: Document<ObjectEntry>, used: set<string>, items: Items)
    ensures Filtered(doc, used, items).Success? <==> Resolvable(doc, used, items)
  {
    if doc != [] {
      var front := doc[..|doc| - 1];
      FilteredSucceeds(front, used, items);
      assert forall i :: 0 <= i < |front| ==> front[i] == doc[i];
    }
  }

  /** Every name in the report is the name of a used object entry. */
  lemma {:induction false} FilteredNamesWithin(doc: Document<ObjectEntry>, used: set<string>, items: Items)
    requires Filtered(doc, used, items).Success?
    ensures forall n :: n in Names(Filtered(doc, used, items).value) ==> n in Names(doc) && n in used
  {
    if doc != [] {
      var front, last := doc[..|doc| - 1], doc[|doc| - 1];
      assert doc == front + [last];
      FilteredNamesWithin(front, used, items);
      NamesSnoc(front, last);
      if last.0 in used {
        var before := Filtered(front, used, items).value;
        var entry := Resolve(last.1.reward.value, items);
        PutNames(before, last.0, entry);
        if last.0 !in Names(before) {
          NamesSnoc(before, (last.0, entry));
        }
      }
    }
  }

  /** With unique names, each used entry adds one property at the end of the report. */
  lemma FilteredSnoc(doc: Document<ObjectEntry>, used: set<string>, items: Items)
    requires UniqueNames(doc) && doc != [] && Filtered(doc, used, items).Success?
    ensures var front, last := doc[..|doc| - 1], doc[|doc| - 1];
      && Filtered(front, used, items).Success?
      && (last.0 in used ==> last.1.reward.Some? && last.1.reward.value in items)
      && Filtered(doc, used, items).value ==
           if last.0 in used
           then Filtered(front, used, items).value + [(last.0, Resolve(last.1.reward.value, items))]
           else Filtered(front, used, items).value
  {
    var front, last := doc[..|doc| - 1], doc[|doc| - 1];
    if last.0 in used {
      var before := Filtered(front, used, items).value;
      FilteredNamesWithin(front, used, items);
      assert last.0 !in Names(front) by {
        assert forall i :: 0 <= i < |front| ==> Names(front)[i] == doc[i].0;
      }
      PutNames(before, last.0, Resolve(last.1.reward.value, items));
    }
  }

  /** With unique names, the report lists the used names in document order. */
  lemma {:induction false} FilteredOrder(doc: Document<ObjectEntry>, used: set<string>, items: Items)
    requires UniqueNames(doc)
    requires Filtered(doc, used, items).Success?
    ensures Names(Filtered(doc, used, items).value) == Select(Names(doc), used)
  {
    if doc != [] {
      var front, last := doc[..|doc| - 1], doc[|doc| - 1];
      assert UniqueNames(front) by {
        assert forall i :: 0 <= i < |front| ==> front[i] == doc[i];
      }
      FilteredSnoc(doc, used, items);
      FilteredOrder(front, used, items);
      assert doc == front + [last];
      NamesSnoc(front, last);
      assert Names(doc)[..|doc| - 1] == Names(front);
      if last.0 in used {
        NamesSnoc(Filtered(front, used, items).value, (last.0, Resolve(last.1.reward.value, items)));
      }
    }
  }

  /** With unique names, each report property holds the reward key of the object entry of
      that name and the key's numbers. */
  lemma FilteredEntries(doc: Document<ObjectEntry>, used: set<string>, items: Items)
    requires UniqueNames(doc)
    requires Filtered(doc, used, items).Success?
    ensures var report := Filtered(doc, used, items).value;
      forall k :: 0 <= k < |report| ==>
        report[k].1.reward in items && report[k].1 == Resolve(report[k].1.reward, items) &&
        Find(doc, report[k].0) == Some(ObjectEntry(Some(report[k].1.reward)))
  {
    var report := Filtered(doc, used, items).value;
    forall k | 0 <= k < |report|
      ensures report[k].1.reward in items && report[k].1 == Resolve(report[k].1.reward, items) &&
              Find(doc, report[k].0) == Some(ObjectEntry(Some(report[k].1.reward)))
    {
      FilteredEntryAt(doc, used, items, k);
    }
  }

  lemma {:induction false} FilteredEntryAt(doc: Document<ObjectEntry>, used: set<string>, items: Items, k: nat)
    requires UniqueNames(doc)
    requires Filtered(doc, used, items).Success? && k < |Filtered(doc, used, items).value|
    ensures var entry := Filtered(doc, used, items).value[k];
      entry.1.reward in items && entry.1 == Resolve(entry.1.reward, items) &&
      Find(doc, entry.0) == Some(ObjectEntry(Some(entry.1.reward)))
  {
    var front, last := doc[..|doc| - 1], doc[|doc| - 1];
    assert UniqueNames(front) by {
      assert forall i :: 0 <= i < |front| ==> front[i] == doc[i];
    }
    assert doc == front + [last];
    FilteredSnoc(doc, used, items);
    var before := Filtered(front, used, items).value;
    var entry := Filtered(doc, used, items).value[k];
    FindSnoc(front, last, entry.0);
    if k < |before| {
      assert entry == before[k];
      FilteredEntryAt(front, used, items, k);
    }
  }

  /** In a document with unique names, the report lists exactly the used names in document
      order, and each carries the reward key of its object entry and that key's numbers. */
  lemma FilteredContents(doc: Document<ObjectEntry>, used: set<string>, items: Items)
    requires UniqueNames(doc)
    requires Filtered(doc, used, items).Success?
    ensures Names(Filtered(doc, used, items).value) == Select(Names(doc), used)
    ensures var report := Filtered(doc, used, items).value;
      forall k :: 0 <= k < |report| ==>
        report[k].1.reward in items && report[k].1 == Resolve(report[k].1.reward, items) &&
        Find(doc, report[k].0) == Some(ObjectEntry(Some(report[k].1.reward)))
  {
    FilteredOrder(doc, used, items);
    FilteredEntries(doc, used, items);
  }

  /** A name is in the report exactly when it names an object entry and is used, and no
      name appears twice. */
  lemma FilteredNames(doc: Document<ObjectEntry>, used: set<string>, items: Items)
    requires UniqueNames(doc)
    requires Filtered(doc, used, items).Success?
    ensures forall n :: n in Names(Filtered(doc, used, items).value) <==> n in Names(doc) && n in used
    ensures UniqueNames(Filtered(doc, used, items).value)
  {
    FilteredContents(doc, used, items);
    var report := Filtered(doc, used, items).value;
    forall i, j | 0 <= i < j < |report|
      ensures report[i].0 != report[j].0
    {
      var a := Find(doc, report[i].0).value;
      var b := Find(doc, report[j].0).value;
      if report[i].0 == report[j].0 {
        SelectUnique(Names(doc), used, i, j);
      }
    }
  }

  /** Selecting from unique names keeps them unique. */
  lemma {:induction false} SelectUnique(names: seq<string>, used: set<string>, i: nat, j: nat)
    requires forall a, b :: 0 <= a < b < |names| ==> names[a] != names[b]
    requires i < j < |Select(names, used)|
    ensures Select(names, used)[i] != Select(names, used)[j]
  {
    var front, last := names[..|names| - 1], names[|names| - 1];
    assert forall a :: 0 <= a < |front| ==> front[a] == names[a];
    if last in used && j == |Select(names, used)| - 1 {
      assert last !in front;
      assert Select(names, used)[i] in Select(front, used);
    } else {
      SelectUnique(front, used, i, j);
    }
  }

  /** With unique object names, the report names exactly the object entries some task lists,
      each once. */
  lemma ReportNames(taskDoc: Document<TaskEntry>, fileDoc: Document<ObjectEntry>, items: Items)
    requires UniqueNames(fileDoc)
    requires JsonReport(taskDoc, fileDoc, items).Success?
    ensures forall n :: n in Names(JsonReport(taskDoc, fileDoc, items).value) <==>
                          n in Names(fileDoc) && Mentions(taskDoc, n)
    ensures UniqueNames(JsonReport(taskDoc, fileDoc, items).value)
  {
    UsedIsUnion(taskDoc);
    FilteredNames(fileDoc, Used(taskDoc).value, items);
  }
}
