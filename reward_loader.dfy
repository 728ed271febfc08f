/** The loop in `Main` that turns the lines of the rewards CSV into the `items` dictionary. */
module RewardLoader {
  import opened Wrappers
  import opened Data
  import opened Text

  /** `int.Parse(columns[i])`; indexing past the end of `columns` fails first. */
  function Column(columns: seq<string>, i: nat): Result<int32, Error> {
    if i < |columns| then ParseInt(columns[i]) else Failure(MissingColumn)
  }

  /** The dictionary key a rewards line is stored under: its first comma-separated field. */
  function Key(line: string): string {
    Split(line, ',')[0]
  }

  /** One rewards line as the loop body reads it: split on ',', then the three numbers
      parsed in order from `columns[1]`, `columns[2]` and `columns[3]`. */
  function ParseLine(line: string): Result<(string, Reward), Error> {
    ParseColumns(Split(line, ','))
  }

  /** The loop body once the line is split into its columns. */
  function ParseColumns(columns: seq<string>): Result<(string, Reward), Error>
    requires |columns| >= 1
  {
    var money :- Column(columns, 1);
    var details :- Column(columns, 2);
    var reputation :- Column(columns, 3);
    Success((columns[0], Reward(money, details, reputation)))
  }

  /** A line loads exactly when it has at least four fields and the second, third and
      fourth parse as integers; it then yields `columns[0] ↦ (money, details, reputation)`. */
  lemma ParseLineMeaning(line: string)
    ensures var columns := Split(line, ',');
      ParseLine(line).Success? <==> |columns| >= 4 && ParseInt(columns[1]).Success? &&
                                    ParseInt(columns[2]).Success? && ParseInt(columns[3]).Success?
    ensures var columns := Split(line, ',');
      ParseLine(line).Success? ==>
        ParseLine(line).value == (Key(line), Reward(ParseInt(columns[1]).value,
                                                    ParseInt(columns[2]).value,
                                                    ParseInt(columns[3]).value))
  {
  }

  /** Every line of the file, parsed on its own. */
  function ParsedLines(lines: seq<string>): seq<Result<(string, Reward), Error>> {
    seq(|lines|, i requires 0 <= i < |lines| => ParseLine(lines[i]))
  }

  /** The dictionary after storing parsed lines in order, or the first line's error.
      A later entry with the same key overwrites the earlier one. */
  function Store(parsed: seq<Result<(string, Reward), Error>>): Result<Items, Error> {
    if parsed == [] then Success(map[])
    else
      var items :- Store(parsed[..|parsed| - 1]);
      var entry :- parsed[|parsed| - 1];
      Success(items[entry.0 := entry.1])
  }

  /** The dictionary `Main` builds from the lines of the rewards file, or the exception
      that stopped it. */
  function Table(lines: seq<string>): Result<Items, Error> {
    Store(ParsedLines(lines))
  }

  /** Fill the dictionary line by line, as `Main` does. */
  method LoadRewards(lines: seq<string>) returns (r: Result<Items, Error>)
    ensures r == Table(lines)
  {
    ghost var parsed := ParsedLines(lines);
    var items: Items := map[];
    for i := 0 to |lines|
      invariant Store(parsed[..i]) == Success(items)
    {
      StoreStep(parsed, i);
      assert parsed[i] == ParseColumns(Split(lines[i], ','));
      var columns := Split(lines[i], ',');
      var money := Column(columns, 1);
      if money.Failure? {
        StoreFailurePersists(parsed, i + 1);
        return Failure(money.error);
      }
      var details := Column(columns, 2);
      if details.Failure? {
        StoreFailurePersists(parsed, i + 1);
        return Failure(details.error);
      }
      var reputation := Column(columns, 3);
      if reputation.Failure? {
        StoreFailurePersists(parsed, i + 1);
        return Failure(reputation.error);
      }
      items := items[columns[0] := Reward(money.value, details.value, reputation.value)];
    }
    assert parsed[..|lines|] == parsed;
    r := Success(items);
  }

  /** Storing one more entry: its error, or the dictionary with its key set to its value. */
  lemma StoreStep(parsed: seq<Result<(string, Reward), Error>>, i: nat)
    requires i < |parsed| && Store(parsed[..i]).Success?
    ensures Store(parsed[..i + 1]) ==
              if parsed[i].Failure? then Failure(parsed[i].error)
              else Success(Store(parsed[..i]).value[parsed[i].value.0 := parsed[i].value.1])
  {
    assert parsed[..i + 1][..i] == parsed[..i];
  }

  /** Once an entry has failed, storing fails with that entry's error. */
  lemma {:induction false} StoreFailurePersists(parsed: seq<Result<(string, Reward), Error>>, k: nat)
    requires k <= |parsed| && Store(parsed[..k]).Failure?
    ensures Store(parsed) == Store(parsed[..k])
  {
    if k < |parsed| {
      var front := parsed[..|parsed| - 1];
      assert front[..k] == parsed[..k];
      StoreFailurePersists(front, k);
    } else {
      assert parsed[..k] == parsed;
    }
  }

  /** Storing succeeds exactly when every entry parsed. */
  lemma {:induction false} StoreSucceeds(parsed: seq<Result<(string, Reward), Error>>)
    ensures Store(parsed).Success? <==> forall i :: 0 <= i < |parsed| ==> parsed[i].Success?
  {
    if parsed != [] {
      var front := parsed[..|parsed| - 1];
      StoreSucceeds(front);
      assert forall i :: 0 <= i < |front| ==> front[i] == parsed[i];
    }
  }

  /** The stored keys are exactly the keys of the entries. */
  lemma {:induction false} StoreKeys(parsed: seq<Result<(string, Reward), Error>>)
    requires Store(parsed).Success?
    ensures forall i :: 0 <= i < |parsed| ==> parsed[i].Success?
    ensures Store(parsed).value.Keys == set i | 0 <= i < |parsed| :: parsed[i].value.0
  {
    StoreSucceeds(parsed);
    if parsed != [] {
      var front := parsed[..|parsed| - 1];
      StoreKeys(front);
      assert forall i :: 0 <= i < |front| ==> front[i] == parsed[i];
      assert (set i | 0 <= i < |parsed| :: parsed[i].value.0)
          == (set i | 0 <= i < |front| :: front[i].value.0) + {parsed[|parsed| - 1].value.0};
    }
  }

  /** The value stored under a key is that of the last entry with the key. */
  lemma {:induction false} StoreLastWins(parsed: seq<Result<(string, Reward), Error>>, i: nat)
    requires Store(parsed).Success? && i < |parsed| && parsed[i].Success?
    requires forall j :: i < j < |parsed| && parsed[j].Success? ==> parsed[j].value.0 != parsed[i].value.0
    ensures parsed[i].value.0 in Store(parsed).value
    ensures Store(parsed).value[parsed[i].value.0] == parsed[i].value.1
  {
    if i < |parsed| - 1 {
      var front := parsed[..|parsed| - 1];
      assert front[i] == parsed[i];
      StoreLastWins(front, i);
    }
  }

  /** The stored key of a line is its first field. */
  lemma ParsedKey(line: string)
    requires ParseLine(line).Success?
    ensures ParseLine(line).value.0 == Key(line)
  {
  }

  /** The load succeeds exactly when every line has four fields whose last three parse. */
  lemma TableSucceeds(lines: seq<string>)
    ensures Table(lines).Success? <==> forall i :: 0 <= i < |lines| ==> ParseLine(lines[i]).Success?
  {
    var parsed := ParsedLines(lines);
    StoreSucceeds(parsed);
    assert forall i :: 0 <= i < |lines| ==> parsed[i] == ParseLine(lines[i]);
  }

  /** The dictionary's keys are exactly the first fields of the lines. */
  lemma TableKeys(lines: seq<string>)
    requires Table(lines).Success?
    ensures Table(lines).value.Keys == set i | 0 <= i < |lines| :: Key(lines[i])
  {
    var parsed := ParsedLines(lines);
    StoreKeys(parsed);
    forall i | 0 <= i < |lines|
      ensures parsed[i].value.0 == Key(lines[i])
    {
      assert parsed[i] == ParseLine(lines[i]);
      ParsedKey(lines[i]);
    }
  }

  /** For each key, the entry is the one parsed from the last line carrying that key. */
  lemma TableLastWins(lines: seq<string>, i: nat)
    requires Table(lines).Success? && i < |lines|
    requires forall j :: i < j < |lines| ==> Key(lines[j]) != Key(lines[i])
    ensures ParseLine(lines[i]).Success? && Key(lines[i]) in Table(lines).value
    ensures (Key(lines[i]), Table(lines).value[Key(lines[i])]) == ParseLine(lines[i]).value
  {
    var parsed := ParsedLines(lines);
    StoreSucceeds(parsed);
    assert parsed[i] == ParseLine(lines[i]);
    forall j | i <= j < |lines|
      ensures parsed[j].value.0 == Key(lines[j])
    {
      ParsedKey(lines[j]);
    }
    StoreLastWins(parsed, i);
  }

  /** Only the first four columns are read. */
  lemma ColumnsPrefix(columns: seq<string>, others: seq<string>)
    requires |columns| >= 4 && |others| >= 4 && columns[..4] == others[..4]
    ensures ParseColumns(columns) == ParseColumns(others)
  {
    assert columns[0] == others[0] && columns[1] == others[1];
    assert columns[2] == others[2] && columns[3] == others[3];
  }

  /** Fields after the fourth play no part: appending more of them changes nothing. */
  lemma ExtraFieldsIgnored(line: string, more: string)
    requires |Split(line, ',')| >= 4
    ensures ParseLine(line + [','] + more) == ParseLine(line)
  {
    SplitConcat(line, more, ',');
    var columns := Split(line + [','] + more, ',');
    assert columns[..4] == Split(line, ',')[..4];
    ColumnsPrefix(columns, Split(line, ','));
  }

  /** The columns of a well-formed line give back the entry they were written from. */
  lemma ColumnsRoundTrip(key: string, reward: Reward, extra: seq<string>)
    ensures ParseColumns([key, FormatInt(reward.money as int), FormatInt(reward.details as int),
                          FormatInt(reward.reputation as int)] + extra)
            == Success((key, reward))
  {
    var money, details, reputation :=
      FormatInt(reward.money as int), FormatInt(reward.details as int), FormatInt(reward.reputation as int);
    ParseFormatted(reward.money);
    ParseFormatted(reward.details);
    ParseFormatted(reward.reputation);
    var columns := [key, money, details, reputation] + extra;
    assert columns[0] == key && columns[1] == money && columns[2] == details && columns[3] == reputation;
    ColumnsParsed(columns, reward);
  }

  lemma ColumnsParsed(columns: seq<string>, reward: Reward)
    requires |columns| >= 4
    requires ParseInt(columns[1]) == Success(reward.money)
    requires ParseInt(columns[2]) == Success(reward.details)
    requires ParseInt(columns[3]) == Success(reward.reputation)
    ensures ParseColumns(columns) == Success((columns[0], reward))
  {
  }

  /** The rewards line `key,money,details,reputation`, followed by any extra fields. */
  function RewardLine(key: string, reward: Reward, extra: seq<string>): string {
    Join([key, FormatInt(reward.money as int), FormatInt(reward.details as int),
          FormatInt(reward.reputation as int)] + extra, [','])
  }

  /** A line written as `key,money,details,reputation[,extra...]` loads back as that entry. */
  lemma LineRoundTrip(key: string, reward: Reward, extra: seq<string>)
    requires ',' !in key
    requires forall k :: 0 <= k < |extra| ==> ',' !in extra[k]
    ensures ParseLine(RewardLine(key, reward, extra)) == Success((key, reward))
  {
    var fields := [key, FormatInt(reward.money as int), FormatInt(reward.details as int),
                   FormatInt(reward.reputation as int)] + extra;
    forall k | 0 <= k < |fields|
      ensures ',' !in fields[k]
    {
      if k == 0 {
      } else if k < 4 {
        FormatIntAvoids(if k == 1 then reward.money as int
                        else if k == 2 then reward.details as int
                        else reward.reputation as int, ',');
      } else {
        assert fields[k] == extra[k - 4];
      }
    }
    var line := RewardLine(key, reward, extra);
    JoinSplit(fields, ',');
    assert Split(line, ',') == fields;
    ColumnsRoundTrip(key, reward, extra);
    assert ParseLine(line) == ParseColumns(fields);
  }
}
