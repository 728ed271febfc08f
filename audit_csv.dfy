/** `GenerateCsvFile`: one CSV row per (task list, listed object) pair, after a fixed header. */
module AuditCsv {
  import opened Wrappers
  import opened Data
  import opened Text
  import opened UsedObjects

  /** The first line of the CSV file, with a space after each comma. It is built from its
      pieces so that proofs about its characters stay small; `HeaderText` shows it equals the
      program's literal. */
  const Header: string :=
    "list_name" + ", " + "object_name" + ", " + "reward_key" + ", " + "money" + ", " +
    "details" + ", " + "reputation" + ", " + "isUsed"

  /** The header is the first line the CSV list starts with, character for character. */
  lemma HeaderText()
    ensures Header == "list_name, object_name, reward_key, money, details, reputation, isUsed"
  {
    assert "list_name" + ", " == "list_name, ";
    assert "list_name, " + "object_name" == "list_name, object_name";
    assert "list_name, object_name" + ", " == "list_name, object_name, ";
    assert "list_name, object_name, " + "reward_key" == "list_name, object_name, reward_key";
    assert "list_name, object_name, reward_key" + ", " == "list_name, object_name, reward_key, ";
    assert "list_name, object_name, reward_key, " + "money" == "list_name, object_name, reward_key, money";
    assert "list_name, object_name, reward_key, money" + ", " == "list_name, object_name, reward_key, money, ";
    assert "list_name, object_name, reward_key, money, " + "details" == "list_name, object_name, reward_key, money, details";
    assert "list_name, object_name, reward_key, money, details" + ", " == "list_name, object_name, reward_key, money, details, ";
    assert "list_name, object_name, reward_key, money, details, " + "reputation" == "list_name, object_name, reward_key, money, details, reputation";
    assert "list_name, object_name, reward_key, money, details, reputation" + ", " == "list_name, object_name, reward_key, money, details, reputation, ";
    assert "list_name, object_name, reward_key, money, details, reputation, " + "isUsed" == "list_name, object_name, reward_key, money, details, reputation, isUsed";
  }

  /** The values of one data row. `rewardKey` is None where the C# variable stays null. */
  datatype AuditRow = AuditRow(listName: string, objectName: string, rewardKey: Option<string>,
                               money: int32, details: int32, reputation: int32, isUsed: int32)

  /** A string in an interpolated string: null renders as nothing. */
  function KeyText(key: Option<string>): string {
    match key
    case None => ""
    case Some(k) => k
  }

  /** The seven values of a row, as text, in column order. */
  function RowFields(row: AuditRow): seq<string> {
    [row.listName, row.objectName, KeyText(row.rewardKey), FormatInt(row.money as int),
     FormatInt(row.details as int), FormatInt(row.reputation as int), FormatInt(row.isUsed as int)]
  }

  /** The text of a data row: its fields separated by commas. */
  function RenderRow(row: AuditRow): string {
    Join(RowFields(row), ",")
  }

  /** The row text is the interpolated string `{listName},{objName},{rewardKey},{money},
      {details},{reputation},{isUsed}`. */
  lemma RenderRowText(row: AuditRow)
    ensures RenderRow(row) ==
              row.listName + "," + row.objectName + "," + KeyText(row.rewardKey) + "," +
              FormatInt(row.money as int) + "," + FormatInt(row.details as int) + "," +
              FormatInt(row.reputation as int) + "," + FormatInt(row.isUsed as int)
  {
    JoinSeven(row.listName, row.objectName, KeyText(row.rewardKey), FormatInt(row.money as int),
              FormatInt(row.details as int), FormatInt(row.reputation as int),
              FormatInt(row.isUsed as int), ",");
  }

  lemma JoinSeven(a: string, b: string, c: string, d: string, e: string, f: string, g: string,
                  sep: string)
    ensures Join([a, b, c, d, e, f, g], sep) ==
              a + sep + b + sep + c + sep + d + sep + e + sep + f + sep + g
  {
    var parts := [a, b, c, d, e, f, g];
    assert parts[1..] == [b, c, d, e, f, g];
    assert parts[1..][1..] == [c, d, e, f, g];
    assert parts[1..][1..][1..] == [d, e, f, g];
    assert parts[1..][1..][1..][1..] == [e, f, g];
    assert parts[1..][1..][1..][1..][1..] == [f, g];
    assert parts[1..][1..][1..][1..][1..][1..] == [g];
    assert Join([f, g], sep) == f + sep + g;
    assert Join([e, f, g], sep) == e + sep + (f + sep + g);
    assert Join([d, e, f, g], sep) == d + sep + (e + sep + (f + sep + g));
    assert Join([c, d, e, f, g], sep) == c + sep + (d + sep + (e + sep + (f + sep + g)));
    assert Join([b, c, d, e, f, g], sep) == b + sep + (c + sep + (d + sep + (e + sep + (f + sep + g))));
  }

  /** The row for object `token` of list `listName`, as the inner loop body builds it. */
  function RowFor(listName: string, token: string, fileDoc: Document<ObjectEntry>, items: Items)
    : Result<AuditRow, Error>
  {
    match Find(fileDoc, token)
    case None => Success(AuditRow(listName, token, None, 0, 0, 0, 0))
    case Some(entry) =>
      match entry.reward
      case None => Failure(MissingReward(token))
      case Some(key) =>
        if key !in items then Failure(UnknownRewardKey(key))
        else
          var reward := items[key];
          Success(AuditRow(listName, token, Some(key), reward.money, reward.details, reward.reputation, 1))
  }

  /** A row is used (`isUsed` is 1) exactly when its object names an object entry. A used row
      carries that entry's reward key and the key's numbers from the rewards table; any other
      row has a null key and zeros. Building the row fails exactly when the object names an
      entry whose reward cannot be resolved. */
  lemma RowForMeaning(listName: string, token: string, fileDoc: Document<ObjectEntry>, items: Items)
    ensures var r := RowFor(listName, token, fileDoc, items);
      r.Failure? <==> token in Names(fileDoc) && !Resolves(fileDoc, items, token)
    ensures var r := RowFor(listName, token, fileDoc, items);
      r.Success? ==> RowIsSound(r.value, fileDoc, items) &&
                     r.value.listName == listName && r.value.objectName == token
  {
  }

  /** The facts every audit row satisfies: its used flag, reward key and numbers. */
  ghost predicate RowIsSound(row: AuditRow, fileDoc: Document<ObjectEntry>, items: Items) {
    && (row.isUsed == 1 <==> row.objectName in Names(fileDoc))
    && (row.isUsed != 1 ==> row == AuditRow(row.listName, row.objectName, None, 0, 0, 0, 0))
    && (row.isUsed == 1 ==>
          row.rewardKey.Some? && row.rewardKey.value in items &&
          Find(fileDoc, row.objectName) == Some(ObjectEntry(row.rewardKey)) &&
          items[row.rewardKey.value] == Reward(row.money, row.details, row.reputation))
  }

  /** The object entry that `token` names, if any, has a reward key the table knows. */
  predicate Resolves(fileDoc: Document<ObjectEntry>, items: Items, token: string) {
    match Find(fileDoc, token)
    case None => true
    case Some(entry) => entry.reward.Some? && entry.reward.value in items
  }

  /** The rows of one task list, in list order, or the first exception. */
  function ListRows(listName: string, tokens: seq<string>, fileDoc: Document<ObjectEntry>, items: Items)
    : Result<seq<AuditRow>, Error>
  {
    if tokens == [] then Success([])
    else
      var rows :- ListRows(listName, tokens[..|tokens| - 1], fileDoc, items);
      var row :- RowFor(listName, tokens[|tokens| - 1], fileDoc, items);
      Success(rows + [row])
  }

  /** The rows of one task entry: its list's rows, or an exception when it has no "list". */
  function EntryRows(entry: (string, TaskEntry), fileDoc: Document<ObjectEntry>, items: Items)
    : Result<seq<AuditRow>, Error>
  {
    match entry.1.list
    case None => Failure(MissingList(entry.0))
    case Some(tokens) => ListRows(entry.0, tokens, fileDoc, items)
  }

  /** The data rows for the task entries of `doc`, in document order, or the first exception. */
  function AuditRows(doc: Document<TaskEntry>, fileDoc: Document<ObjectEntry>, items: Items)
    : Result<seq<AuditRow>, Error>
  {
    if doc == [] then Success([])
    else
      var rows :- AuditRows(doc[..|doc| - 1], fileDoc, items);
      var more :- EntryRows(doc[|doc| - 1], fileDoc, items);
      Success(rows + more)
  }

  function RenderAll(rows: seq<AuditRow>): seq<string> {
    seq(|rows|, k requires 0 <= k < |rows| => RenderRow(rows[k]))
  }

  /** The text `GenerateCsvFile` writes: the header and the rows, joined by `newline`. */
  function AuditText(doc: Document<TaskEntry>, fileDoc: Document<ObjectEntry>, items: Items,
                     newline: string): Result<string, Error>
  {
    var rows :- AuditRows(doc, fileDoc, items);
    Success(Join([Header] + RenderAll(rows), newline))
  }

  /** Build the CSV lines list by list and object by object, then join them. */
  method GenerateCsvFile(taskDoc: Document<TaskEntry>, fileDoc: Document<ObjectEntry>, items: Items,
                         newline: string) returns (r: Result<string, Error>)
    ensures r == AuditText(taskDoc, fileDoc, items, newline)
  {
    var csvLines: seq<string> := [Header];
    ghost var rows: seq<AuditRow> := [];
    for i := 0 to |taskDoc|
      invariant AuditRows(taskDoc[..i], fileDoc, items) == Success(rows)
      invariant csvLines == [Header] + RenderAll(rows)
    {
      assert taskDoc[..i + 1][..i] == taskDoc[..i];
      var more := AddEntryLines(csvLines, taskDoc[i], fileDoc, items);
      if more.Failure? {
        AuditFailurePersists(taskDoc, fileDoc, items, i + 1);
        return Failure(more.error);
      }
      ghost var entryRows := EntryRows(taskDoc[i], fileDoc, items).value;
      RenderAllAppend(rows, entryRows);
      csvLines := more.value;
      rows := rows + entryRows;
    }
    assert taskDoc[..|taskDoc|] == taskDoc;
    r := Success(Join(csvLines, newline));
  }

  /** The outer loop body: a task entry without a "list" raises, otherwise its lines follow. */
  method AddEntryLines(csvLines: seq<string>, entry: (string, TaskEntry),
                       fileDoc: Document<ObjectEntry>, items: Items) returns (r: Result<seq<string>, Error>)
    ensures EntryRows(entry, fileDoc, items).Failure? ==> r == Failure(EntryRows(entry, fileDoc, items).error)
    ensures EntryRows(entry, fileDoc, items).Success? ==>
              r == Success(csvLines + RenderAll(EntryRows(entry, fileDoc, items).value))
  {
    var listName := entry.0;
    var listArray := entry.1.list;
    if listArray.None? {
      return Failure(MissingList(listName));
    }
    r := AddListLines(csvLines, listName, listArray.value, fileDoc, items);
  }

  /** The inner loop of `GenerateCsvFile`: one line per object of the list, added to `csvLines`. */
  method AddListLines(csvLines: seq<string>, listName: string, tokens: seq<string>,
                      fileDoc: Document<ObjectEntry>, items: Items) returns (r: Result<seq<string>, Error>)
    ensures ListRows(listName, tokens, fileDoc, items).Failure? ==>
              r == Failure(ListRows(listName, tokens, fileDoc, items).error)
    ensures ListRows(listName, tokens, fileDoc, items).Success? ==>
              r == Success(csvLines + RenderAll(ListRows(listName, tokens, fileDoc, items).value))
  {
    var lines := csvLines;
    ghost var listRows: seq<AuditRow> := [];
    for j := 0 to |tokens|
      invariant ListRows(listName, tokens[..j], fileDoc, items) == Success(listRows)
      invariant lines == csvLines + RenderAll(listRows)
    {
      assert tokens[..j + 1][..j] == tokens[..j];
      var built := BuildRow(listName, tokens[j], fileDoc, items);
      if built.Failure? {
        ListFailurePersists(listName, tokens, fileDoc, items, j + 1);
        return Failure(built.error);
      }
      var row := built.value;
      RenderAllAppend(listRows, [row]);
      lines := lines + [RenderRow(row)];
      listRows := listRows + [row];
    }
    assert tokens[..|tokens|] == tokens;
    r := Success(lines);
  }

  /** The body of the inner loop: start from a null key and zeros, and overwrite them
      from the object entry when the object has one. */
  method BuildRow(listName: string, objName: string, fileDoc: Document<ObjectEntry>, items: Items)
    returns (r: Result<AuditRow, Error>)
    ensures r == RowFor(listName, objName, fileDoc, items)
  {
    var rewardKey: Option<string> := None;
    var money, details, reputation: int32 := 0, 0, 0;
    var fileEntry := Find(fileDoc, objName);
    var isUsed: int32 := if fileEntry.Some? then 1 else 0;
    if fileEntry.Some? {
      rewardKey := fileEntry.value.reward;
      if rewardKey.None? {
        return Failure(MissingReward(objName));
      }
      if rewardKey.value !in items {
        return Failure(UnknownRewardKey(rewardKey.value));
      }
      var rewardData := items[rewardKey.value];
      money := rewardData.money;
      details := rewardData.details;
      reputation := rewardData.reputation;
    }
    r := Success(AuditRow(listName, objName, rewardKey, money, details, reputation, isUsed));
  }

  lemma RenderAllAppend(rows: seq<AuditRow>, more: seq<AuditRow>)
    ensures RenderAll(rows + more) == RenderAll(rows) + RenderAll(more)
  {
  }

  /** Once an object of a list has failed, the list's rows fail with that error. */
  lemma {:induction false} ListFailurePersists(listName: string, tokens: seq<string>,
                                               fileDoc: Document<ObjectEntry>, items: Items, k: nat)
    requires k <= |tokens| && ListRows(listName, tokens[..k], fileDoc, items).Failure?
    ensures ListRows(listName, tokens, fileDoc, items) == ListRows(listName, tokens[..k], fileDoc, items)
  {
    if k < |tokens| {
      var front := tokens[..|tokens| - 1];
      assert front[..k] == tokens[..k];
      ListFailurePersists(listName, front, fileDoc, items, k);
    } else {
      assert tokens[..k] == tokens;
    }
  }

  /** Once a task entry has failed, the whole CSV fails with that error. */
  lemma {:induction false} AuditFailurePersists(doc: Document<TaskEntry>, fileDoc: Document<ObjectEntry>,
                                                items: Items, k: nat)
    requires k <= |doc| && AuditRows(doc[..k], fileDoc, items).Failure?
    ensures AuditRows(doc, fileDoc, items) == AuditRows(doc[..k], fileDoc, items)
  {
    if k < |doc| {
      var front := doc[..|doc| - 1];
      assert front[..k] == doc[..k];
      AuditFailurePersists(front, fileDoc, items, k);
    } else {
      assert doc[..k] == doc;
    }
  }

  /** No name or key shown in the row contains `c`. */
  predicate Plain(row: AuditRow, c: char) {
    c !in row.listName && c !in row.objectName && c !in KeyText(row.rewardKey)
  }

  /** Splitting a row's text at commas gives back its seven fields when no name or key
      contains a comma. */
  lemma RowFieldsRoundTrip(row: AuditRow)
    requires Plain(row, ',')
    ensures Split(RenderRow(row), ',') == RowFields(row)
  {
    var f := RowFields(row);
    FormatIntAvoids(row.money as int, ',');
    FormatIntAvoids(row.details as int, ',');
    FormatIntAvoids(row.reputation as int, ',');
    FormatIntAvoids(row.isUsed as int, ',');
    assert forall i :: 0 <= i < |f| ==> ',' !in f[i];
    JoinSplit(f, ',');
  }

  /** A row's text holds a line break only where one of its names or its key does. */
  lemma RowAvoids(row: AuditRow, c: char)
    requires Plain(row, c) && c != ',' && c != '-' && !IsDigit(c)
    ensures c !in RenderRow(row)
  {
    var f := RowFields(row);
    FormatIntAvoids(row.money as int, c);
    FormatIntAvoids(row.details as int, c);
    FormatIntAvoids(row.reputation as int, c);
    FormatIntAvoids(row.isUsed as int, c);
    assert forall i :: 0 <= i < |f| ==> c !in f[i];
    JoinAvoids(f, ",", c);
  }

  /** With "\n" as the line break and no line break in any name or key, the text splits back
      into the header line followed by one line per row, in row order. */
  lemma AuditTextLines(doc: Document<TaskEntry>, fileDoc: Document<ObjectEntry>, items: Items)
    requires AuditRows(doc, fileDoc, items).Success?
    requires forall k :: 0 <= k < |AuditRows(doc, fileDoc, items).value| ==>
               Plain(AuditRows(doc, fileDoc, items).value[k], '\n')
    ensures AuditText(doc, fileDoc, items, "\n").Success?
    ensures Split(AuditText(doc, fileDoc, items, "\n").value, '\n') ==
              [Header] + RenderAll(AuditRows(doc, fileDoc, items).value)
  {
    LinesRoundTrip(AuditRows(doc, fileDoc, items).value);
  }

  /** The joined lines of plain rows split back into those lines. */
  lemma LinesRoundTrip(rows: seq<AuditRow>)
    requires forall k :: 0 <= k < |rows| ==> Plain(rows[k], '\n')
    ensures Split(Join([Header] + RenderAll(rows), "\n"), '\n') == [Header] + RenderAll(rows)
  {
    var lines := [Header] + RenderAll(rows);
    forall i | 0 <= i < |lines|
      ensures '\n' !in lines[i]
    {
      if i > 0 {
        assert lines[i] == RenderRow(rows[i - 1]);
        RowAvoids(rows[i - 1], '\n');
      } else {
        assert '\n' !in Header;
      }
    }
    JoinSplit(lines, '\n');
  }

  /** The rows of one list build exactly when every object on it resolves; there is then one
      row per object, in list order, each the row built for that object. */
  lemma {:induction false} ListRowsMeaning(listName: string, tokens: seq<string>,
                                           fileDoc: Document<ObjectEntry>, items: Items)
    ensures ListRows(listName, tokens, fileDoc, items).Success? <==>
              forall k :: 0 <= k < |tokens| ==> Resolves(fileDoc, items, tokens[k])
    ensures ListRows(listName, tokens, fileDoc, items).Success? ==>
              var rows := ListRows(listName, tokens, fileDoc, items).value;
              |rows| == |tokens| &&
              forall k :: 0 <= k < |rows| ==> RowFor(listName, tokens[k], fileDoc, items) == Success(rows[k])
  {
    if tokens != [] {
      var front := tokens[..|tokens| - 1];
      ListRowsMeaning(listName, front, fileDoc, items);
      RowForMeaning(listName, tokens[|tokens| - 1], fileDoc, items);
      assert forall k :: 0 <= k < |front| ==> front[k] == tokens[k];
    }
  }

  /** The (list name, object name) pairs of `doc`, list by list and in list order. */
  function Pairs(doc: Document<TaskEntry>): seq<(string, string)> {
    if doc == [] then []
    else Pairs(doc[..|doc| - 1]) + EntryPairs(doc[|doc| - 1])
  }

  function EntryPairs(entry: (string, TaskEntry)): seq<(string, string)> {
    match entry.1.list
    case None => []
    case Some(tokens) => seq(|tokens|, k requires 0 <= k < |tokens| => (entry.0, tokens[k]))
  }

  /** The lengths of all "list" arrays, added up. */
  function TokenCount(doc: Document<TaskEntry>): nat {
    if doc == [] then 0
    else
      var last := doc[|doc| - 1];
      TokenCount(doc[..|doc| - 1]) + if last.1.list.Some? then |last.1.list.value| else 0
  }

  /** There is one pair per element of every list, duplicates included. */
  lemma {:induction false} PairsCount(doc: Document<TaskEntry>)
    ensures |Pairs(doc)| == TokenCount(doc)
  {
    if doc != [] {
      PairsCount(doc[..|doc| - 1]);
    }
  }

  /** The CSV builds exactly when every task entry has a list and every object some list
      names resolves: it has no object entry, or one with a reward key the table knows. */
  lemma {:induction false} AuditSucceeds(doc: Document<TaskEntry>, fileDoc: Document<ObjectEntry>, items: Items)
    ensures AuditRows(doc, fileDoc, items).Success? <==>
              (forall i :: 0 <= i < |doc| ==> doc[i].1.list.Some?) &&
              (forall t :: Mentions(doc, t) ==> Resolves(fileDoc, items, t))
  {
    if doc != [] {
      var front, last := doc[..|doc| - 1], doc[|doc| - 1];
      AuditSucceeds(front, fileDoc, items);
      assert forall i :: 0 <= i < |front| ==> front[i] == doc[i];
      forall t
        ensures Mentions(doc, t) <==> Mentions(front, t) || (last.1.list.Some? && t in last.1.list.value)
      {
        MentionsSnoc(doc, t);
      }
      if last.1.list.Some? {
        var tokens := last.1.list.value;
        ListRowsMeaning(last.0, tokens, fileDoc, items);
        assert (forall t :: t in tokens ==> Resolves(fileDoc, items, t)) <==>
               (forall k :: 0 <= k < |tokens| ==> Resolves(fileDoc, items, tokens[k]));
      }
    }
  }

  /** A built CSV has one row per (list, object) pair, in document and list order, each the
      row built for that pair. */
  lemma AuditRowsContents(doc: Document<TaskEntry>, fileDoc: Document<ObjectEntry>, items: Items)
    requires AuditRows(doc, fileDoc, items).Success?
    ensures var rows := AuditRows(doc, fileDoc, items).value;
      |rows| == |Pairs(doc)| &&
      forall k :: 0 <= k < |rows| ==>
        RowFor(Pairs(doc)[k].0, Pairs(doc)[k].1, fileDoc, items) == Success(rows[k])
  {
    AuditRowsCount(doc, fileDoc, items);
    var rows := AuditRows(doc, fileDoc, items).value;
    forall k | 0 <= k < |rows|
      ensures RowFor(Pairs(doc)[k].0, Pairs(doc)[k].1, fileDoc, items) == Success(rows[k])
    {
      AuditRowAt(doc, fileDoc, items, k);
    }
  }

  lemma {:induction false} AuditRowsCount(doc: Document<TaskEntry>, fileDoc: Document<ObjectEntry>, items: Items)
    requires AuditRows(doc, fileDoc, items).Success?
    ensures |AuditRows(doc, fileDoc, items).value| == |Pairs(doc)|
  {
    if doc != [] {
      var front, last := doc[..|doc| - 1], doc[|doc| - 1];
      AuditRowsCount(front, fileDoc, items);
      ListRowsMeaning(last.0, last.1.list.value, fileDoc, items);
      assert |EntryPairs(last)| == |last.1.list.value|;
    }
  }

  lemma {:induction false} AuditRowAt(doc: Document<TaskEntry>, fileDoc: Document<ObjectEntry>, items: Items,
                                      k: nat)
    requires AuditRows(doc, fileDoc, items).Success? && k < |Pairs(doc)|
    ensures k < |AuditRows(doc, fileDoc, items).value|
    ensures RowFor(Pairs(doc)[k].0, Pairs(doc)[k].1, fileDoc, items) ==
              Success(AuditRows(doc, fileDoc, items).value[k])
  {
    var front, last := doc[..|doc| - 1], doc[|doc| - 1];
    AuditRowsCount(front, fileDoc, items);
    var before := AuditRows(front, fileDoc, items).value;
    var tokens := last.1.list.value;
    var more := ListRows(last.0, tokens, fileDoc, items).value;
    var rows := AuditRows(doc, fileDoc, items).value;
    assert rows == before + more;
    assert Pairs(doc) == Pairs(front) + EntryPairs(last);
    ListRowsMeaning(last.0, tokens, fileDoc, items);
    if k < |before| {
      AuditRowAt(front, fileDoc, items, k);
      assert rows[k] == before[k];
    } else {
      assert Pairs(doc)[k] == EntryPairs(last)[k - |before|] == (last.0, tokens[k - |before|]);
    }
  }

  /** Every row of a built CSV is sound, and its names are those of its pair. */
  lemma AuditRowsSound(doc: Document<TaskEntry>, fileDoc: Document<ObjectEntry>, items: Items)
    requires AuditRows(doc, fileDoc, items).Success?
    ensures var rows := AuditRows(doc, fileDoc, items).value;
      |rows| == |Pairs(doc)| &&
      forall k :: 0 <= k < |rows| ==>
        RowIsSound(rows[k], fileDoc, items) && (rows[k].listName, rows[k].objectName) == Pairs(doc)[k]
  {
    AuditRowsContents(doc, fileDoc, items);
    var rows := AuditRows(doc, fileDoc, items).value;
    forall k | 0 <= k < |rows|
      ensures RowIsSound(rows[k], fileDoc, items) && (rows[k].listName, rows[k].objectName) == Pairs(doc)[k]
    {
      RowForMeaning(Pairs(doc)[k].0, Pairs(doc)[k].1, fileDoc, items);
    }
  }
}
