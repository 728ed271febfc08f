/** `Main`: load the rewards table, then write the filtered report, then the audit CSV. Any
    exception ends the run, so a later stage runs only when every earlier one succeeded. */
module Program {
  import opened Wrappers
  import opened Data
  import opened RewardLoader
  import opened UsedObjects
  import opened FilteredReport
  import opened AuditCsv

  /** What a run leaves behind: the report file, the CSV file, and the exception that ended
      it, each if any. */
  datatype Outcome = Outcome(report: Option<Report>, audit: Option<string>, failure: Option<Error>)

  /** The outcome of a run on the two documents, the lines of the rewards file and the
      platform's line break. */
  function RunOutcome(taskDoc: Document<TaskEntry>, fileDoc: Document<ObjectEntry>,
                      rewardLines: seq<string>, newline: string): Outcome
  {
    match Table(rewardLines)
    case Failure(e) => Outcome(None, None, Some(e))
    case Success(items) =>
      match JsonReport(taskDoc, fileDoc, items)
      case Failure(e) => Outcome(None, None, Some(e))
      case Success(report) =>
        match AuditText(taskDoc, fileDoc, items, newline)
        case Failure(e) => Outcome(Some(report), None, Some(e))
        case Success(text) => Outcome(Some(report), Some(text), None)
  }

  /** The three stages of `Main`, in order, stopping at the first exception. */
  method Run(taskDoc: Document<TaskEntry>, fileDoc: Document<ObjectEntry>, rewardLines: seq<string>,
             newline: string) returns (o: Outcome)
    ensures o == RunOutcome(taskDoc, fileDoc, rewardLines, newline)
  {
    var items := LoadRewards(rewardLines);
    if items.Failure? {
      return Outcome(None, None, Some(items.error));
    }
    var report := GenerateJsonFile(taskDoc, fileDoc, items.value);
    if report.Failure? {
      return Outcome(None, None, Some(report.error));
    }
    var audit := GenerateCsvFile(taskDoc, fileDoc, items.value, newline);
    if audit.Failure? {
      return Outcome(Some(report.value), None, Some(audit.error));
    }
    o := Outcome(Some(report.value), Some(audit.value), None);
  }

  /** Whenever the report builds, so do the CSV rows: both stages need every task entry to
      have a list, and the CSV resolves only the first object entry of each listed name where
      the report resolves all of them. With unique object names the two agree exactly. */
  lemma StagesAgree(taskDoc: Document<TaskEntry>, fileDoc: Document<ObjectEntry>, items: Items)
    ensures JsonReport(taskDoc, fileDoc, items).Success? ==> AuditRows(taskDoc, fileDoc, items).Success?
    ensures UniqueNames(fileDoc) && AuditRows(taskDoc, fileDoc, items).Success? ==>
              JsonReport(taskDoc, fileDoc, items).Success?
  {
    UsedSucceeds(taskDoc);
    AuditSucceeds(taskDoc, fileDoc, items);
    if Used(taskDoc).Success? {
      var used := Used(taskDoc).value;
      UsedIsUnion(taskDoc);
      FilteredSucceeds(fileDoc, used, items);
      if Filtered(fileDoc, used, items).Success? {
        forall t | Mentions(taskDoc, t)
          ensures Resolves(fileDoc, items, t)
        {
          var found := Find(fileDoc, t);
          if found.Some? {
            var i :| 0 <= i < |fileDoc| && fileDoc[i] == (t, found.value);
            assert fileDoc[i].0 in used;
          }
        }
      }
      if UniqueNames(fileDoc) && AuditRows(taskDoc, fileDoc, items).Success? {
        forall i | 0 <= i < |fileDoc| && fileDoc[i].0 in used
          ensures fileDoc[i].1.reward.Some? && fileDoc[i].1.reward.value in items
        {
          FindUnique(fileDoc, i);
          assert Resolves(fileDoc, items, fileDoc[i].0);
        }
      }
    }
  }

  /** A run writes both files or neither, and it reports an exception exactly when the CSV
      file is missing. */
  lemma BothOrNeither(taskDoc: Document<TaskEntry>, fileDoc: Document<ObjectEntry>,
                      rewardLines: seq<string>, newline: string)
    ensures var o := RunOutcome(taskDoc, fileDoc, rewardLines, newline);
      (o.report.Some? <==> o.audit.Some?) && (o.failure.None? <==> o.audit.Some?)
  {
    if Table(rewardLines).Success? {
      StagesAgree(taskDoc, fileDoc, Table(rewardLines).value);
    }
  }

  /** Every listed (list, object) pair names an object some task entry lists. */
  lemma {:induction false} PairsMentioned(doc: Document<TaskEntry>)
    ensures forall k :: 0 <= k < |Pairs(doc)| ==> Mentions(doc, Pairs(doc)[k].1)
  {
    if doc != [] {
      var front, last := doc[..|doc| - 1], doc[|doc| - 1];
      PairsMentioned(front);
      forall k | 0 <= k < |Pairs(doc)|
        ensures Mentions(doc, Pairs(doc)[k].1)
      {
        MentionsSnoc(doc, Pairs(doc)[k].1);
        if k >= |Pairs(front)| {
          assert Pairs(doc)[k] == EntryPairs(last)[k - |Pairs(front)|];
        }
      }
    }
  }

  /** With unique object names, the two files agree: a CSV row is marked used exactly when
      its object is in the report, and the report entry then holds the row's reward key
      and numbers. */
  lemma ReportMatchesAudit(taskDoc: Document<TaskEntry>, fileDoc: Document<ObjectEntry>, items: Items)
    requires UniqueNames(fileDoc)
    requires JsonReport(taskDoc, fileDoc, items).Success?
    ensures AuditRows(taskDoc, fileDoc, items).Success?
    ensures var report := JsonReport(taskDoc, fileDoc, items).value;
      var rows := AuditRows(taskDoc, fileDoc, items).value;
      forall k :: 0 <= k < |rows| ==>
        (rows[k].isUsed == 1 <==> rows[k].objectName in Names(report)) &&
        (rows[k].isUsed == 1 ==>
           rows[k].rewardKey.Some? &&
           Find(report, rows[k].objectName) ==
             Some(ReportEntry(rows[k].rewardKey.value, rows[k].money, rows[k].details, rows[k].reputation)))
  {
    StagesAgree(taskDoc, fileDoc, items);
    var used := Used(taskDoc).value;
    var report := JsonReport(taskDoc, fileDoc, items).value;
    var rows := AuditRows(taskDoc, fileDoc, items).value;
    UsedIsUnion(taskDoc);
    FilteredContents(fileDoc, used, items);
    FilteredNames(fileDoc, used, items);
    AuditRowsSound(taskDoc, fileDoc, items);
    PairsMentioned(taskDoc);
    forall k | 0 <= k < |rows|
      ensures rows[k].isUsed == 1 ==>
        rows[k].rewardKey.Some? &&
        Find(report, rows[k].objectName) ==
          Some(ReportEntry(rows[k].rewardKey.value, rows[k].money, rows[k].details, rows[k].reputation))
    {
      var row := rows[k];
      assert Mentions(taskDoc, row.objectName);
      if row.isUsed == 1 {
        assert row.objectName in Names(report);
        var j :| 0 <= j < |report| && Names(report)[j] == row.objectName;
        FindUnique(report, j);
      }
    }
  }
}
