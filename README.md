# TechGD reward report builder, modelled in Dafny

TechGD is a small batch job (`TechGD/Program.cs`). It reads three inputs:

- a rewards table: CSV lines `key,money,details,reputation`;
- a task document: a JSON object whose properties each carry a `"list"` array of object names;
- an object document: a JSON object whose properties each carry a `"reward"` key.

It writes two outputs:

- `filtered_file.json`: the object entries that some task list uses, each with its reward key resolved through the rewards table;
- `lists_and_contracts.csv`: a header line, then one audit row per (task list, listed object) pair. Each row says whether the object exists and, if so, what its reward is.

The model follows the program's own steps. Each stage is a loop `method` written like the C# loop. Each is proved equal to a specification function, a left fold over the input in input order, and the properties are lemmas about those functions:

| file | module | models |
|---|---|---|
| `wrappers.dfy` | `Wrappers` | `Option` and `Result` (an exception becomes a `Failure`) |
| `data.dfy` | `Data` | `int32`, the `Error` causes, `Reward`, the two documents as ordered property lists, `JObject.TryGetValue` as `Find` |
| `text.dfy` | `Text` | `String.Split(char)`, `String.Join`, `int.Parse` (default style, 32-bit range), integer formatting in interpolated strings |
| `reward_loader.dfy` | `RewardLoader` | the `foreach (var line in itemsCsv)` loop of `Main` |
| `used_objects.dfy` | `UsedObjects` | the `usedObjects` set of `GenerateJsonFile` |
| `filtered_report.dfy` | `FilteredReport` | the filtering loop of `GenerateJsonFile`, with `JObject`'s indexer set as `Put` |
| `audit_csv.dfy` | `AuditCsv` | `GenerateCsvFile`: header, rows, row text, the final join |
| `program.dfy` | `Program` | `Main`'s order of stages, and how the two outputs relate |

Two facts about the code are worth stating up front:

- The comment at `TechGD/Program.cs:32` expects four columns per rewards line, and lines 36-39 index `columns[1]` to `columns[3]`. A line with fewer than four fields therefore throws. Fields after the fourth are never read (`RewardLoader.ExtraFieldsIgnored`).
- The report is written (`File.WriteAllText`, line 97) before `GenerateCsvFile` runs (line 48), so a failing CSV stage could in principle leave the report behind. It cannot: the CSV stage fails only where the report stage has already failed, so a run writes both files or neither (`Program.BothOrNeither`).

## Model

| member | source | states |
|---|---|---|
| `Data.Find` | TechGD/Program.cs:128 | `TryGetValue` finds a value exactly when the name is a property of the document, and the value is that property's |
| `Data.FindSnoc` | TechGD/Program.cs:128 | in a longer document the earlier property of a name wins; a new name is found at the end |
| `Data.FindUnique` | TechGD/Program.cs:128 | with unique property names, looking up the name at a position gives that position's value |
| `Text.Split` | TechGD/Program.cs:31 | `Split(',')` yields at least one field and no field contains the separator |
| `Text.SplitJoin` | TechGD/Program.cs:31 | joining the fields of a split with the separator gives back the line |
| `Text.Join` | TechGD/Program.cs:148 | `string.Join`: the parts in order with the separator between neighbours (a definition; its properties are the lemmas below) |
| `Text.JoinLength` | TechGD/Program.cs:148 | a join is as long as its parts plus one separator per gap |
| `Text.JoinSplit` | TechGD/Program.cs:148 | splitting the join of separator-free parts gives back the parts |
| `Text.JoinSnoc` | TechGD/Program.cs:148 | `String.Join` puts the separator only between parts, never after the last one |
| `Text.SplitConcat` | TechGD/Program.cs:31 | splitting at a separator between two strings splits each half |
| `Text.JoinAvoids` | TechGD/Program.cs:148 | a character in neither the parts nor the separator is not in the join |
| `Text.ParseInt` | TechGD/Program.cs:36-39 | `int.Parse` fails only as "not an integer" or "overflow" |
| `Text.ParseIntShape` | TechGD/Program.cs:36-39 | white space, an optional '+' or '-', one or more digits and white space parse to the signed value when it fits in 32 bits, and otherwise fail with overflow |
| `Text.ParseIntOnlyIntegers` | TechGD/Program.cs:36-39 | any string of another shape fails as "not an integer" |
| `Text.IntegerTextOf` | TechGD/Program.cs:36-39 | a string that does not fail as "not an integer" splits into white space, a sign, digits and white space |
| `Text.ParseSignedShape` | TechGD/Program.cs:36-39 | without surrounding white space, a signed run of digits parses to its value or overflows |
| `Text.SignedSplit` | TechGD/Program.cs:36-39 | what the sign-and-digits step accepts is an optional sign followed by one or more digits |
| `Text.TrimParts` | TechGD/Program.cs:36-39 | a string is its leading white space, the text `int.Parse` reads, and its trailing white space |
| `Text.TrimStartSplit` | TechGD/Program.cs:36-39 | skipping leading white space drops a white prefix and nothing else |
| `Text.TrimEndSplit` | TechGD/Program.cs:36-39 | skipping trailing white space drops a white suffix and nothing else |
| `Text.FormatParse` | TechGD/Program.cs:36-39 | any 32-bit value written in decimal, with white space around it, parses back to itself |
| `Text.ParseFormatted` | TechGD/Program.cs:36-39 | the decimal text of any 32-bit value parses back to that value |
| `Text.FormatInt` | TechGD/Program.cs:143 | a formatted number is a non-empty run of digits, led by '-' exactly when negative |
| `Text.FormatIntCanonical` | TechGD/Program.cs:143 | the decimal form is the shortest: zero prints as "0" and no other number has a leading '0' |
| `Text.NatDigitsLead` | TechGD/Program.cs:143 | the digits of a number start with '0' exactly when the number is zero |
| `Text.FormatIntAvoids` | TechGD/Program.cs:143 | a formatted number holds only digits and '-' |
| `Text.NatDigitsValue` | TechGD/Program.cs:143 | the decimal digits of a number denote that number |
| `RewardLoader.ParseLineMeaning` | TechGD/Program.cs:31-40 | a line loads exactly when it has at least four fields and fields 2 to 4 parse; it yields its first field mapped to the three numbers |
| `RewardLoader.LoadRewards` | TechGD/Program.cs:29-41 | the loop builds exactly `Table(lines)`: the dictionary, or the first line's exception |
| `RewardLoader.TableSucceeds` | TechGD/Program.cs:29-41 | loading succeeds exactly when every line loads |
| `RewardLoader.TableKeys` | TechGD/Program.cs:35 | the dictionary's keys are exactly the first fields of the lines |
| `RewardLoader.TableLastWins` | TechGD/Program.cs:35-40 | a key maps to the numbers of the last line carrying it |
| `RewardLoader.StoreSucceeds` | TechGD/Program.cs:29-41 | storing parsed lines succeeds exactly when every line parsed |
| `RewardLoader.StoreKeys` | TechGD/Program.cs:35 | the stored keys are exactly the parsed lines' keys |
| `RewardLoader.StoreLastWins` | TechGD/Program.cs:35-40 | a later line with the same key overwrites the earlier one |
| `RewardLoader.StoreStep` | TechGD/Program.cs:35-40 | one more line either throws its error or sets its key to its numbers in the dictionary so far |
| `RewardLoader.StoreFailurePersists` | TechGD/Program.cs:29-41 | after a line throws, the whole load fails with that line's error |
| `RewardLoader.ParsedKey` | TechGD/Program.cs:35 | a loaded line is stored under its first field |
| `RewardLoader.ExtraFieldsIgnored` | TechGD/Program.cs:35-40 | fields after the fourth play no part in a line's entry |
| `RewardLoader.ColumnsPrefix` | TechGD/Program.cs:35-40 | two lines agreeing on their first four fields load the same |
| `RewardLoader.ColumnsRoundTrip` | TechGD/Program.cs:35-40 | fields written as key and three decimal numbers load back as that entry |
| `RewardLoader.ColumnsParsed` | TechGD/Program.cs:35-40 | when fields 2 to 4 parse, the entry is the first field mapped to the three values |
| `RewardLoader.LineRoundTrip` | TechGD/Program.cs:29-41 | a line `key,money,details,reputation[,more]` with comma-free key loads back as that entry |
| `UsedObjects.CollectUsedObjects` | TechGD/Program.cs:57-70 | the nested loops build exactly `Used(taskDoc)`, or the exception of the first entry without a list |
| `UsedObjects.UsedSucceeds` | TechGD/Program.cs:62-64 | collecting succeeds exactly when every task entry has a list; otherwise the error names the first entry without one |
| `UsedObjects.UsedIsUnion` | TechGD/Program.cs:57-70 | a name is used exactly when some task entry lists it |
| `UsedObjects.UsedOrderIrrelevant` | TechGD/Program.cs:57-70 | documents with the same entries, in any order and with any repetition, use the same names |
| `UsedObjects.UsedFailurePersists` | TechGD/Program.cs:60-70 | after an entry without a list, collecting fails with that entry's error |
| `FilteredReport.PutNames` | TechGD/Program.cs:86-92 | setting a new property appends it; setting an existing one keeps every name in place |
| `FilteredReport.PutFind` | TechGD/Program.cs:86-92 | after `report[name] = value`, looking `name` up gives `value` |
| `FilteredReport.PutFrame` | TechGD/Program.cs:86-92 | setting an existing property keeps the object's length, gives that property the new value and leaves every other property as it was |
| `FilteredReport.Select` | TechGD/Program.cs:76-79 | the kept names are exactly the object names that are used |
| `FilteredReport.FilterEntries` | TechGD/Program.cs:73-94 | the loop builds exactly `Filtered(fileDoc, used, items)`, or the first exception |
| `FilteredReport.GenerateJsonFile` | TechGD/Program.cs:53-97 | the report is the used set followed by filtering, or the first exception |
| `FilteredReport.FilteredSucceeds` | TechGD/Program.cs:79-83 | filtering succeeds exactly when every used object entry has a reward key the table knows |
| `FilteredReport.FilteredFailurePersists` | TechGD/Program.cs:76-94 | after an entry throws, filtering fails with that entry's error |
| `FilteredReport.FilteredNamesWithin` | TechGD/Program.cs:79-86 | every report name is a used object name |
| `FilteredReport.FilteredSnoc` | TechGD/Program.cs:79-92 | with unique names, each used entry adds one property at the end of the report |
| `FilteredReport.FilteredOrder` | TechGD/Program.cs:76-94 | with unique names, the report lists the used names in document order |
| `FilteredReport.FilteredEntries` | TechGD/Program.cs:81-92 | each report property holds its object's reward key and that key's money, details and reputation |
| `FilteredReport.FilteredEntryAt` | TechGD/Program.cs:81-92 | the same, for one position of the report |
| `FilteredReport.FilteredContents` | TechGD/Program.cs:73-94 | order and entry contents of the report together |
| `FilteredReport.FilteredNames` | TechGD/Program.cs:73-94 | a name is in the report exactly when it names an object entry and is used, and no name appears twice |
| `FilteredReport.ReportNames` | TechGD/Program.cs:57-94 | with unique object names, the report names exactly the object entries some task lists, each once |
| `FilteredReport.SelectUnique` | TechGD/Program.cs:76-79 | selecting from unique names keeps them unique |
| `AuditCsv.HeaderText` | TechGD/Program.cs:107-111 | the CSV's first line is exactly `list_name, object_name, reward_key, money, details, reputation, isUsed` |
| `AuditCsv.RenderRowText` | TechGD/Program.cs:143 | the row text is the interpolated string `{listName},{objName},{rewardKey},{money},{details},{reputation},{isUsed}` |
| `AuditCsv.JoinSeven` | TechGD/Program.cs:143 | seven fields joined by a separator are the fields with the separator between them |
| `AuditCsv.RowForMeaning` | TechGD/Program.cs:122-140 | a row is used exactly when its object has an entry; a used row carries that entry's reward key and the key's numbers, any other row a null key and zeros; building fails exactly when an existing entry's reward cannot be resolved |
| `AuditCsv.BuildRow` | TechGD/Program.cs:122-140 | the inner loop body builds exactly `RowFor`, or the same exception |
| `AuditCsv.AddListLines` | TechGD/Program.cs:120-144 | the inner loop appends one line per listed object, or fails with that list's first error |
| `AuditCsv.AddEntryLines` | TechGD/Program.cs:116-144 | the outer loop body: an entry without a list throws, otherwise its lines are appended |
| `AuditCsv.GenerateCsvFile` | TechGD/Program.cs:104-148 | the file text is the header and the rendered rows joined by the line break, or the first exception |
| `AuditCsv.RenderAllAppend` | TechGD/Program.cs:143 | rendering more rows appends their lines |
| `AuditCsv.ListFailurePersists` | TechGD/Program.cs:120-144 | after an object throws, the list's rows fail with that error |
| `AuditCsv.AuditFailurePersists` | TechGD/Program.cs:114-145 | after a task entry throws, the whole CSV fails with that error |
| `AuditCsv.RowFieldsRoundTrip` | TechGD/Program.cs:143 | splitting a row's text at commas gives back its seven fields when no name or key contains a comma |
| `AuditCsv.RowAvoids` | TechGD/Program.cs:143 | a row's text holds a line break only where one of its names or its key does |
| `AuditCsv.AuditTextLines` | TechGD/Program.cs:148 | with "\n" as line break, the file splits back into the header and one line per row, in order |
| `AuditCsv.LinesRoundTrip` | TechGD/Program.cs:107-148 | the joined header and row lines split back into those lines |
| `AuditCsv.ListRowsMeaning` | TechGD/Program.cs:120-144 | a list's rows build exactly when every listed object resolves, one row per object in list order |
| `AuditCsv.PairsCount` | TechGD/Program.cs:114-144 | there is one (list, object) pair per list element, duplicates included |
| `UsedObjects.MentionsSnoc` | TechGD/Program.cs:60-64 | a name is listed in a document exactly when its last entry or an earlier one lists it |
| `AuditCsv.AuditSucceeds` | TechGD/Program.cs:114-140 | the CSV builds exactly when every task entry has a list and every listed object resolves |
| `AuditCsv.AuditRowsCount` | TechGD/Program.cs:114-144 | there is one row per (list, object) pair |
| `AuditCsv.AuditRowAt` | TechGD/Program.cs:114-144 | the row at a position is the one built for the pair at that position |
| `AuditCsv.AuditRowsContents` | TechGD/Program.cs:114-144 | one row per pair, in traversal order, each built for its pair |
| `AuditCsv.AuditRowsSound` | TechGD/Program.cs:114-144 | every row is sound (used flag, key and numbers as above) and names its pair |
| `Program.Run` | TechGD/Program.cs:29-48 | the run loads the table, writes the report, then the CSV, stopping at the first exception |
| `Program.StagesAgree` | TechGD/Program.cs:45-48 | when the report builds, so does the CSV; with unique object names the converse holds too |
| `Program.BothOrNeither` | TechGD/Program.cs:45-48 | a run writes both files or neither, and reports an exception exactly when the CSV is missing |
| `Program.PairsMentioned` | TechGD/Program.cs:114-122 | every audited pair names an object some task lists |
| `Program.ReportMatchesAudit` | TechGD/Program.cs:79-143 | with unique object names, a row is marked used exactly when its object is in the report, and that report entry holds the row's key and numbers |

## Left out

- File reading and writing, JSON parsing and serialisation (`JObject.Parse`, `JsonConvert.SerializeObject`) and the console messages. The documents and the rewards lines are parameters; the outputs are values.
- `Environment.NewLine` is a parameter; the line round-trip is proved for "\n".
- `int.Parse` is modelled for the invariant culture: leading and trailing white space, an optional sign, decimal digits and the 32-bit range. Culture-specific signs, trailing NUL characters and other `NumberStyles` details are not modelled.
- `Text.FormatInt`: its shortest-form guarantee is the lemma `FormatIntCanonical`. Numbers in the CSV row are formatted as in the invariant culture. A culture whose negative sign is not '-' (such as U+2212) would print different rows; that is not modelled.
- The .NET exception types (`IndexOutOfRangeException`, `FormatException`, `OverflowException`, `NullReferenceException`, `ArgumentNullException`, `KeyNotFoundException`) become the constructors of `Error`.
- JSON values of the wrong kind are not modelled. These include a `"list"` that is an object or scalar, and an object property whose value is not an object. A JSON `null` reward, which `ToString` turns into an empty key, is not modelled either. A task entry either has a list of names or has none; an object entry either has a reward key or has none.
- Each element of a `"list"` array is taken as its `ToString()` text, a string.
- `RewardLoader.ParseLine`, `FilteredReport.Put` and `AuditCsv.RowFor`: their contracts are stated as the lemmas `ParseLineMeaning`, `PutNames`/`PutFind`/`PutFrame` and `RowForMeaning`, not as `ensures` on the functions.
- Properties that need unique property names in the object document (`FilteredOrder`, `FilteredEntries`, `ReportMatchesAudit`, the converse in `StagesAgree`) require it. A parsed `JObject` never holds two properties of the same name; the model's documents can.
