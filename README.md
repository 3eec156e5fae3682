# aws_utils: a verified model of the helper layer and its menu front end

This project models the client-side logic of `aws_utils`, a small helper layer over
the AWS SDK with an interactive command-line front end, and proves what that logic
promises. It covers four parts.

- **The SQS helper** (`SQSUtils`):
  - `list_queues` follows `NextToken` across pages and pairs each queue URL with its
    short name.
  - `send_messages_from_file` strips the file's lines, drops blank ones, numbers the
    rest `"0"`, `"1"`, ... and sends them in batches of ten.
  - It also builds the queue console link, reads the message count, and shapes the
    `receive_message` and attribute requests.
- **The S3 helper** (`S3Utils`):
  - Checks run before any request: empty bucket or key, missing file, missing
    directory.
  - The object key of an uploaded file, and the directory walk that uploads every
    file below a root exactly once.
  - The bucket console link and the bucket listing.
- **The configuration record** (`AWSConfig`) and `ConfigurationManager`:
  - The record's defaults and its dictionary form.
  - Load and save over the configuration file.
  - The keyword arguments a session is built from.
- **The CLI** (`cli.py`):
  - The menu tables.
  - The sub-menu loop of `MenuHandler.execute_menu`.
  - The `main` loop over SQS, S3, Configure and Exit.

The AWS clients are not modelled as services. Each helper class keeps the requests
its client has received as a sequence field (`calls`), and its methods append to it.
What the client answers, and whether it raises, are method parameters. The local
filesystem is a map from path components to `File` or `Directory`. The configuration
file is a value: missing, or a YAML document that reads as a mapping or as nothing.
Prompt answers are one sequence, read in order.

Files:

- `wrappers.dfy`: `Option`, `Result`, `Status` and the Python exception classes that
  escape the layer.
- `text.dfy`: the Python string operations the code relies on:
  - `split`/`join` and `split(c)[-1]`;
  - `strip`, `str(n)` and `int(s)`;
  - `replace`, and POSIX `os.path.join`.
- `batching.dfy`: `_get_batches`.
- `configuration.dfy`: `AWSConfig` and `ConfigurationManager`.
- `sqs.dfy`: `SQSUtils`.
- `s3.dfy`: `S3Utils` and the filesystem.
- `cli.dfy`: menus, `execute_menu`, `main` and `_clear_queue`.

Each loop in the source is an imperative method proved against a pure specification
function:

| method | source loop | specification function |
|---|---|---|
| `SqsUtils.ListQueues` | `while response.get("NextToken")` | `AllUrls`/`Named` |
| `SqsUtils.SendBatches` | `for batch in self._get_batches(...)` | `BatchRequests`/`FirstFault` |
| `S3Utils.UploadEachFile` | the `os.walk` loop | `DirectoryUploads` |
| `MenuHandler.ExecuteMenu` | `execute_menu` | `RunMenu` |
| `MainLoop` | `main` | `RunMain` |

The properties are then proved about those functions.

## Model

| member | source | states |
|---|---|---|
| Text.Split | src/aws_utils/sqs_utils.py:25 | `s.split(c)` has at least one piece, and no piece contains the separator |
| Text.JoinSplit | src/aws_utils/sqs_utils.py:25 | joining the pieces of `s.split(c)` with `c` gives `s` back |
| Text.SplitJoin | src/aws_utils/sqs_utils.py:25 | splitting a join of separator-free pieces gives the pieces back |
| Text.Join | src/aws_utils/sqs_utils.py:25 | `c.join(parts)`: the pieces with one `c` between each two; JoinSplit and SplitJoin prove it inverse to `split` |
| Text.LastSegment | src/aws_utils/sqs_utils.py:25 | `s.split(c)[-1]`, computed by skipping past each `c` in turn; LastSegmentIsLastPiece and LastSegmentIsLongestSuffix state what it is |
| Text.LastSegmentIsLastPiece | src/aws_utils/sqs_utils.py:25 | the short name is exactly `url.split("/")[-1]` |
| Text.LastSegmentIsLongestSuffix | src/aws_utils/sqs_utils.py:44 | `s.split(c)[-1]` is the longest suffix of `s` free of `c`: it is a suffix, holds no `c`, and is all of `s` or preceded by `c` |
| Text.FinalSegmentUnique | src/aws_utils/sqs_utils.py:44 | there is only one longest `c`-free suffix |
| Text.LastSegmentAfterSeparator | utils/s3_utils.py:49 | the base name of `a + "/" + b`, with no `/` in `b`, is `b`, whatever `a` is |
| Text.Strip | src/aws_utils/sqs_utils.py:73 | `strip()` leaves no whitespace at either end |
| Text.StripEmpty | src/aws_utils/sqs_utils.py:73 | a line strips to `""` exactly when it is all whitespace |
| Text.StripUnchanged | src/aws_utils/sqs_utils.py:73 | a string with no whitespace at either end is its own strip |
| Text.StripIdempotent | src/aws_utils/sqs_utils.py:73 | stripping twice is stripping once |
| Text.NatToString | src/aws_utils/sqs_utils.py:75 | `str(i)` is a non-empty run of digits, with no leading zero unless it is `0` |
| Text.DigitsValueOfNatToString | src/aws_utils/sqs_utils.py:75 | the digits of `str(n)` have the value `n` |
| Text.NatToStringInjective | src/aws_utils/sqs_utils.py:75 | different numbers give different `str` |
| Text.ParseInt | src/aws_utils/sqs_utils.py:34 | `int(s)` on a string: surrounding whitespace, an optional sign and ASCII digits, else a `ValueError`; ParseIntOfNatToString proves it reads back `str(n)` |
| Text.ParseIntOfNatToString | src/aws_utils/sqs_utils.py:34 | `int(str(n)) == n` |
| Text.Replace | utils/s3_utils.py:62 | `replace("\\", "/")` keeps the length and leaves no `\` |
| Text.ReplaceAbsent | utils/s3_utils.py:62 | replacing an absent character changes nothing |
| Text.PathJoin | utils/s3_utils.py:60 | POSIX `os.path.join`: an absolute second part wins, an empty first part gives the second, and the result otherwise ends with the second part |
| Batching.Batches | src/aws_utils/sqs_utils.py:81-85 | `_get_batches`: the slices `entries[i:i+10]` for `i` in `range(0, len(entries), 10)`; FlattenBatches and BatchShape state what they are |
| Batching.FlattenBatches | src/aws_utils/sqs_utils.py:81-85 | concatenating the batches gives back exactly the entries, in order |
| Batching.BatchShape | src/aws_utils/sqs_utils.py:81-85 | there are ceil(n/10) batches and none for no entries; each holds 1 to 10 entries; every batch but the last holds exactly 10 |
| Batching.TwentyFiveEntries | src/aws_utils/sqs_utils.py:81-85 | 25 entries form batches of 10, 10 and 5 |
| Configuration.FromDict | src/aws_utils/configuration.py:14-16 | each field from its key, or `""` when the key is missing; FromDictToDict and ToDictFromDict prove it inverse to `to_dict` |
| Configuration.AWSConfig.IsValid | src/aws_utils/configuration.py:21-22 | `bool(region or profile)`; IsValidExactly states both directions |
| Configuration.Load | src/aws_utils/configuration.py:34-41 | the record `load_config` returns for a file state: the default when missing or empty, else `from_dict` of its mapping; LoadSaved proves it reads back what is saved |
| Configuration.AWSConfig.ToDict | src/aws_utils/configuration.py:18-19 | `to_dict` has exactly the keys `region` and `profile` |
| Configuration.DefaultIsUnset | src/aws_utils/configuration.py:11-22 | the default record is not valid, and `from_dict({})` is the default record |
| Configuration.IsValidExactly | src/aws_utils/configuration.py:21-22 | `is_valid` holds exactly when region or profile is non-empty, in both directions |
| Configuration.FromDictToDict | src/aws_utils/configuration.py:15-19 | `from_dict(to_dict(c)) == c` |
| Configuration.ToDictFromDict | src/aws_utils/configuration.py:15-19 | on a mapping with exactly the two keys, `to_dict(from_dict(d)) == d` |
| Configuration.LoadSaved | src/aws_utils/configuration.py:39-49 | loading what `save_config` wrote gives back the same record |
| Configuration.SessionArgs | src/aws_utils/configuration.py:55-61 | `region_name` is present exactly when the region is set and `profile_name` exactly when the profile is set, with those values, and no other key |
| Configuration.SessionArgsOfDefault | src/aws_utils/configuration.py:55-61 | the default record gives no arguments; `us-east-1`/`test` gives both |
| Configuration.ConfigurationManager.LoadConfig | src/aws_utils/configuration.py:34-41 | the record read from the file: the default when the file is missing or empty, else `from_dict` of its mapping |
| Configuration.ConfigurationManager.SaveConfig | src/aws_utils/configuration.py:43-49 | the file afterwards holds the record's `to_dict` |
| Configuration.ConfigurationManager.BuildSessionArgs | src/aws_utils/configuration.py:55-61 | the mapping filled key by key equals `SessionArgs` of the record |
| Configuration.ConfigurationManager.CreateSession | src/aws_utils/configuration.py:63-66 | the session is built from the arguments of the record loaded from the file |
| Sqs.LastPageRead | src/aws_utils/sqs_utils.py:21 | the last page requested is the first page without a truthy `NextToken`; every page before it has one |
| Sqs.AllUrlsAppend | src/aws_utils/sqs_utils.py:20-23 | page boundaries do not matter: the URLs of two runs of pages are concatenated |
| Sqs.Named | src/aws_utils/sqs_utils.py:25 | `[(queue, queue.split("/")[-1]) for queue in ...]`; NamedQueues states what it holds |
| Sqs.NamedQueues | src/aws_utils/sqs_utils.py:25 | the listing keeps the order and length of the URLs; each URL is paired with its longest `/`-free suffix |
| Sqs.ThreePages | src/aws_utils/sqs_utils.py:19-23 | pages of 4, 4 and 2 URLs, the first two with a token: 3 pages read, 10 URLs in order |
| Sqs.SqsUtils.ListQueues | src/aws_utils/sqs_utils.py:17-25 | one request per page read; the first has no token and each later one carries the previous page's token; the result is the named URLs of those pages, in order |
| Sqs.MessageCount | src/aws_utils/sqs_utils.py:34 | `int(attrs["Attributes"]["ApproximateNumberOfMessages"])`, with a `KeyError` for a missing key; MessageCountReadsNumber states what it reads |
| Sqs.MessageCountReadsNumber | src/aws_utils/sqs_utils.py:34 | a count reported as `str(n)` is read as `n` |
| Sqs.MessageCountFortyTwo | src/aws_utils/sqs_utils.py:34 | a reported `"42"` is read as 42 |
| Sqs.SqsUtils.GetMessageCount | src/aws_utils/sqs_utils.py:28-34 | an empty queue URL fails on the missing `sqs` field with no request; otherwise one request for exactly `ApproximateNumberOfMessages`, whose value is parsed |
| Sqs.ConsoleUrl | src/aws_utils/sqs_utils.py:9 | `CONSOLE_URL_TEMPLATE` filled with the region and the queue's short name; ConsoleUrlNamesQueue states what it names |
| Sqs.OpenInConsole | src/aws_utils/sqs_utils.py:36-47 | the link `open_in_console` opens fails exactly when the queue URL is empty (the missing `sqs` field); an empty region falls back to the configured one |
| Sqs.ConsoleUrlNamesQueue | src/aws_utils/sqs_utils.py:44-47 | the console link ends with the queue's short name, whatever the region |
| Sqs.ConsoleUrlExample | src/aws_utils/sqs_utils.py:36-47 | `.../123456789012/test-queue` with configured region us-east-1 opens `https://us-east-1.console.aws.amazon.com/sqs/v2/home?region=us-east-1#/queues/test-queue`; an empty URL fails |
| Sqs.SqsUtils.GetAttributes | src/aws_utils/sqs_utils.py:50-54 | one request for `["All"]`; returns `Attributes`, or `{}` when absent |
| Sqs.SqsUtils.PurgeAsWritten | src/aws_utils/sqs_utils.py:56-57 | as written, `purge` fails with `AttributeError` on `pu` and sends nothing |
| Sqs.SqsUtils.Purge | src/aws_utils/sqs_utils.py:56-57 | as intended, `purge` sends one purge request for the queue |
| Sqs.SqsUtils.ReceiveMessages | src/aws_utils/sqs_utils.py:59-65 | one request for at most 10 messages with a 2-second wait; returns `Messages`, or `[]` when absent |
| Sqs.SqsUtils.SendOne | src/aws_utils/sqs_utils.py:67-68 | one `send_message` request with the body |
| Sqs.NonBlankStripped | src/aws_utils/sqs_utils.py:73 | no more lines survive than there were; each survivor is non-empty and already stripped (which lines survive, and in what order, is NonBlankStrippedPositions) |
| Sqs.NonBlankStrippedAppend | src/aws_utils/sqs_utils.py:73 | the filter works line by line: the survivors of two runs of lines are those of the first run followed by those of the second |
| Sqs.NonBlankStrippedPositions | src/aws_utils/sqs_utils.py:73 | the survivors are exactly the lines that do not strip to `""`, stripped, in file order: their positions form an increasing list that holds every such line and no other |
| Sqs.MessageLines | src/aws_utils/sqs_utils.py:72-73 | the file's text split into lines, then filtered by NonBlankStripped |
| Sqs.Entries | src/aws_utils/sqs_utils.py:75 | `[{"Id": str(i), "MessageBody": line} for i, line in enumerate(lines)]`; EntriesArePositional states what they hold |
| Sqs.EntriesArePositional | src/aws_utils/sqs_utils.py:75 | entry `i` carries line `i` under an id that `int` reads as `i`; no two entries share an id |
| Sqs.BlankLinesDropped | src/aws_utils/sqs_utils.py:72-75 | for `"a\n\n  \nb\n"`, only `a` and `b` survive, with ids `0` and `1` |
| Sqs.SentEntriesOfBatchRequests | src/aws_utils/sqs_utils.py:77-78 | the entries carried by the batch requests are the batches concatenated |
| Sqs.BatchRequestsDeliverEntries | src/aws_utils/sqs_utils.py:71-85 | sending every batch delivers exactly the numbered entries, in order, 1 to 10 per request |
| Sqs.NonBlankLinesSent | src/aws_utils/sqs_utils.py:71-79 | when every batch is sent, each line of the file that is not blank goes out, stripped, as the body of some entry |
| Sqs.SqsUtils.SendMessagesFromFile | src/aws_utils/sqs_utils.py:71-79 | a missing file fails with no request; otherwise one request per batch, in order, up to and including the first one the client raises on, which is then the result |
| Sqs.SqsUtils.SendBatches | src/aws_utils/sqs_utils.py:77-79 | the loop sends the batch requests in order and stops at the first client fault |
| S3.Exists | utils/s3_utils.py:46 | `os.path.exists`: the empty path never exists, and a path ending in `/` exists only when it names a directory |
| S3.FileWithTrailingSlash | utils/s3_utils.py:46-47 | `r/f` naming a regular file exists but `r/f/` does not; `r/` exists and is a directory |
| S3.IsDir | utils/s3_utils.py:54 | `os.path.isdir`: a directory always exists |
| S3.DirectoryUploads | utils/s3_utils.py:58-64 | the set of uploads a directory upload must make: one per file below the root, from its walked path to its object key; EveryFileUploadedOnce relates it to the walk |
| S3.ObjectKey | utils/s3_utils.py:62 | a file below the root always gets a non-empty key |
| S3.JoinedRelative | utils/s3_utils.py:61 | the relative path is non-empty, not absolute, and splits back into its components |
| S3.ResolveLocalPath | utils/s3_utils.py:58-60 | the path the walk builds for a file names the root's components followed by the file's |
| S3.LocalPathInjective | utils/s3_utils.py:60 | different files below one root get different local paths |
| S3.ObjectKeyWithoutPrefix | utils/s3_utils.py:62 | with an empty prefix, the key is the relative path joined with `/` |
| S3.ObjectKeyUnderPrefix | utils/s3_utils.py:62 | the key is the prefix, one `/` unless the prefix ends in one, then the relative path |
| S3.ObjectKeysDistinct | utils/s3_utils.py:62 | under one prefix, different files whose names hold no `\` get different keys |
| S3.BackslashNamesCollide | utils/s3_utils.py:62 | the file `a\b` and the file `b` in directory `a` both get the key `a/b` |
| S3.KeyOfTopLevelFile | utils/s3_utils.py:62 | `a.txt` under prefix `p` is stored as `p/a.txt` |
| S3.KeyOfNestedFile | utils/s3_utils.py:62 | `sub/b.txt` under prefix `p` is stored as `p/sub/b.txt`, and as `sub/b.txt` with no prefix |
| S3.KeyOfTwoComponents | utils/s3_utils.py:62 | a file two levels down is keyed `prefix/a/b`, or `a/b` with no prefix |
| S3.BucketConsoleUrl | utils/s3_utils.py:23-29 | no page exactly when the bucket is empty |
| S3.BucketConsoleUrlExample | utils/s3_utils.py:23-29 | `test-bucket` in us-east-1 opens `https://s3.console.aws.amazon.com/s3/buckets/test-bucket?region=us-east-1&tab=objects`; no bucket opens nothing |
| S3.BucketConsoleUrlNamesBucket | utils/s3_utils.py:29 | in one region, different buckets open different pages |
| S3.BucketConsoleUrlNamesRegion | utils/s3_utils.py:28-29 | for one bucket, different regions open different pages |
| S3.BucketNames | utils/s3_utils.py:21 | one name per bucket, in response order |
| S3.KeyFor | utils/s3_utils.py:49 | `key or os.path.basename(file_path)`; KeyForDefaultsToBaseName states the fallback |
| S3.KeyForDefaultsToBaseName | utils/s3_utils.py:49 | with no key, or an empty one, a file at `dir/name` is stored under `name` |
| S3.S3Utils.ListBuckets | utils/s3_utils.py:18-21 | one request; the bucket names in order, or `[]` when `Buckets` is absent |
| S3.S3Utils.OpenBucketInConsole | utils/s3_utils.py:23-31 | the page opened is `https://s3.console.aws.amazon.com/s3/buckets/{bucket}?region={region}&tab=objects`, or none for an empty bucket; no request is sent |
| S3.S3Utils.DeleteObject | utils/s3_utils.py:33-43 | an empty bucket or key raises `ValueError` with no request; otherwise one delete request, and a client fault is re-raised unchanged |
| S3.S3Utils.UploadFile | utils/s3_utils.py:45-51 | a path that does not exist, including a regular file named with a trailing `/`, raises `FileNotFoundError` with no request; otherwise one upload under the given key, or the base name when none is given |
| S3.S3Utils.UploadDirectory | utils/s3_utils.py:53-64 | a root that is not a directory raises `NotADirectoryError` with no request. Otherwise the requests sent are exactly the required uploads, one per file below the root, none repeated, in any order |
| S3.S3Utils.UploadEachFile | utils/s3_utils.py:58-64 | the walk sends one upload per file, in its visit order; the order lists every file below the root exactly once |
| S3.UploadReachesFile | utils/s3_utils.py:60-64 | a file the walk finds exists at the path built for it, and `upload_file` keeps its computed key |
| S3.EveryFileUploadedOnce | utils/s3_utils.py:58-64 | visiting each file once, in any order, sends exactly the required uploads, each once |
| S3.UploadSequenceCovers | utils/s3_utils.py:58-64 | a visit order listing exactly the files yields exactly the required upload set |
| S3.UploadsAreDistinct | utils/s3_utils.py:58-64 | uploads for distinct files are distinct requests |
| S3.FileBelowRoot | utils/s3_utils.py:58-61 | a file the walk finds has a valid relative path, and its full path is an entry |
| S3.FilesOfExampleTree | utils/s3_utils.py:58-59 | the tree `R/a.txt`, `R/sub/b.txt` has exactly those two files below `R` |
| S3.DirectoryExampleUploads | utils/s3_utils.py:58-64 | uploading `R` under `p` must upload `R/a.txt` as `p/a.txt` and `R/sub/b.txt` as `p/sub/b.txt`, and nothing else |
| Cli.KeyOf | cli.py:56 | `next(k for k, v in menu.items() if v == label)`, `None` where it raises `StopIteration` |
| Cli.KeyOfFirstMatch | cli.py:56 | the key found for a label is the key of the first pair with that label |
| Cli.KeyOfMissing | cli.py:56 | a label that no pair carries finds no key |
| Cli.LabelOf | cli.py:53 | `menu[key]`, `None` where it raises `KeyError` |
| Cli.LabelOfFirstMatch | cli.py:53 | the label found for a key is the label of the first pair with that key |
| Cli.LabelOfMissing | cli.py:53 | a key that no pair carries finds no label |
| Cli.KeyOfLabelOf | cli.py:56 | with distinct labels, the reverse lookup of a key's label gives the key |
| Cli.LabelOfKeyOf | cli.py:56 | with distinct keys, the label of the key found for a label is that label |
| Cli.SqsKeysDistinct | cli.py:13-23 | the SQS menu repeats no key |
| Cli.SqsLabelsDistinct | cli.py:13-23 | the SQS menu repeats no label |
| Cli.S3KeysDistinct | cli.py:25-32 | the S3 menu repeats no key |
| Cli.S3LabelsDistinct | cli.py:25-32 | the S3 menu repeats no label |
| Cli.SqsActionTable | cli.py:66-76 | the SQS action table binds exactly the 8 non-`back` keys of the SQS menu |
| Cli.S3ActionTable | cli.py:134-141 | the S3 action table binds exactly the 5 non-`back` keys of the S3 menu |
| Cli.SqsBackLabel | cli.py:22 | the SQS menu is left by the label `Back` |
| Cli.S3BackLabel | cli.py:31 | the S3 menu is left by the label `Back` |
| Cli.RunMenu | cli.py:46-58 | the loop reads no more answers than given, at least one when there is one, and all of them when it runs out |
| Cli.BackFirst | cli.py:53-54 | selecting `back` first reads one answer and runs no action |
| Cli.RunMenuContinues | cli.py:56-58 | another label runs its key's action when the table binds the key, then the loop goes on |
| Cli.RanOnlyBoundActions | cli.py:56-58 | only bound actions run, and no more of them than answers read |
| Cli.SelectionsThenBack | cli.py:46-58 | selecting the labels of bound keys `k1..kn` then `back` runs exactly `k1..kn`, in order, and reads `n+1` answers |
| Cli.RunMain | cli.py:187-215 | the events, the final file and the ending of a run of `main` on a sequence of answers; MainStep, FileChangesOnlyBySave and SavedConfigsAreStripped state what it does |
| Cli.MenuStep | cli.py:198-203 | entering a sub-menu builds one session from the current file, then records only that menu's actions, and leaves the file alone |
| Cli.AfterMenu | cli.py:198-203 | `main` goes on exactly when the sub-menu was left by `back`, past the answers it read; a raise in the sub-menu ends `main` with that error |
| Cli.ChoiceOf | cli.py:198-215 | each of `SQS`, `S3`, `Configure`, `Exit` selects its own branch, in both directions |
| Cli.MainStep | cli.py:192-215 | an iteration that does not end `main` reads between one answer and all of them; only `Configure` changes the file |
| Cli.ExitFirst | cli.py:213-215 | `Exit` ends `main` at once, with nothing done and the file untouched |
| Cli.StrippedConfig | cli.py:207-210 | the record built from two answers has stripped region and profile |
| Cli.ConfigureStep | cli.py:204-211 | `Configure` reads two answers and saves the record of their stripped values, which the file then holds |
| Cli.ConfigureSavesStripped | cli.py:204-211 | configuring saves only stripped records |
| Cli.MenuChoiceSavesNothing | cli.py:198-203 | visiting a sub-menu saves nothing and keeps the file |
| Cli.MenuChoiceStep | cli.py:198-203 | `SQS` and `S3` run their own sub-menu on the answers that follow |
| Cli.QuietStep | cli.py:213-215 | exit, an unknown answer, or a configuration cut short records nothing and keeps the file |
| Cli.StepSavesStripped | cli.py:198-215 | every record one iteration saves is stripped |
| Cli.SavedConfigsAreStripped | cli.py:192-215 | every record a whole run of `main` saves holds a stripped region and profile |
| Cli.StepFile | cli.py:198-215 | one iteration keeps the file unless it saves, and then leaves the last record saved |
| Cli.FileChangesOnlyBySave | cli.py:192-215 | over a whole run, the file is unchanged if nothing was saved, else it holds the last record saved |
| Cli.ConfigureRun | cli.py:204-211 | after `Configure`, `main` continues from the saved record on the answers after the two it read |
| Cli.SqsBackThenExit | cli.py:192-215 | `SQS`, `Back`, `Exit` builds exactly one session from the file, runs nothing, and exits |
| Cli.ConfigureThenSqs | cli.py:192-215 | configuring then opening SQS builds the session from the stripped answers just saved |
| Cli.MenuHandler.ExecuteMenu | cli.py:46-58 | the loop runs exactly the actions, reads exactly the answers and ends exactly as `RunMenu` says |
| Cli.EnterMenu | cli.py:198-203 | creating the session and running the handler's loop is the iteration `MenuStep` describes |
| Cli.RunStep | cli.py:193-215 | one pass of the loop body is the iteration `MainStep` describes, file included |
| Cli.MainLoop | cli.py:187-215 | the loop produces exactly the events, the final file and the ending of `RunMain` |
| Cli.ClearQueue | cli.py:100-104 | the queue is purged exactly when the confirmation is given; otherwise no request is sent |

## Left out

- The boto3 clients and sessions are not modelled as services. Requests are recorded
  in `calls`, and responses are parameters. `boto3.Session(**args)` is represented by
  the arguments it receives.
- Client faults are parameters only where the source does something with them:
  `delete_object` re-raises, and a failing `send_message_batch` ends
  `send_messages_from_file`. A client that raises in `list_queues`,
  `get_queue_attributes`, `receive_message`, `send_message`, `list_buckets` or
  `upload_file` is not modelled; the exception would propagate unchanged.
- `webbrowser.open`, `print`, `_log`, colorama and questionary are left out. The
  console links are returned as values, and prompt answers are one input sequence.
- A `None` answer from questionary (the prompt was cancelled) is not modelled.
- YAML parsing and dumping are left out. The file is a value that holds a
  string-to-string mapping or nothing. Non-string YAML values are not modelled, and
  neither is the `OSError`/`YAMLError` re-wrapping in `save_config`.
- Sqs.MessageLines: the file's text is split on `\n` only; Python's universal
  newlines are not modelled. Each line is stripped, so a trailing `\r` is dropped as
  in the source.
- Text.ParseInt: `int()` is modelled for optional whitespace, an optional sign and
  ASCII digits. Underscores between digits and non-ASCII digits, which `int()` also
  accepts, are not.
- Paths are split on `/` and empty pieces are dropped, so repeated `/` collapse and a
  trailing `/` is kept only as the demand that the path name a directory. `.` and `..`
  are not resolved, and a relative path is not resolved against a working directory:
  `/R` and `R` name the same entry. Symbolic links are not modelled, and `os.walk`
  visits the files in any order.
- S3.S3Utils.UploadEachFile: every file the walk finds exists, so `upload_file`'s own
  check cannot fail there. A client fault part-way through the walk is not modelled.
- The action bodies of the sub-menus (`_list_queues`, `_send_batch_messages`, ...) and
  `select_queue` are not modelled. They call helper methods that `SQSUtils` does not
  define (`purge_queue`, `scan_messages`, `send_batch_messages`,
  `open_queue_in_console`, `get_queue_attributes`), so a run records only which
  action key was chosen. `_clear_queue` is modelled with the corrected `purge`.
- Sqs.SqsUtils.GetMessageCount and `open_in_console` fall back, on an empty queue URL,
  to the configuration's `sqs` field. `AWSConfig` has no such field, so this is
  modelled as an `AttributeError` with no request. The fallback to the configured
  region is modelled as a parameter.
- Sqs.SqsUtils.SendMessagesFromFile: a batch request on which the client raises ends
  the operation, and later batches are not sent, although a caller might expect every
  batch to be attempted. The model follows the code, where the exception propagates
  out of the loop.
- S3.BackslashNamesCollide records that on POSIX a `\` in a file name is replaced
  too, so two different files can share a key. The model keeps the source's
  behaviour; distinct keys are proved only for names without `\`.

## Findings

| source | as written | input that shows it | evidently intended | confidence | as-written member | corrected member |
|---|---|---|---|---|---|---|
| src/aws_utils/sqs_utils.py:57 | `purge` calls `self.client.pu`, which the SQS client does not have, so every call raises `AttributeError` before any request | any queue URL | one `purge_queue` request for the queue | high (not executed) | Sqs.SqsUtils.PurgeAsWritten | Sqs.SqsUtils.Purge |
