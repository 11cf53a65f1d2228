# findtweets in Dafny

A model of `findtweets`, a command-line tool that takes a user name and a list
of tags. It asks a search service for recent posts carrying those tags or
mentioning the user, drops posts that are not newer than the user's last post or
written by the user, and prints the identifiers of the rest.

The model covers the pure logic around the network calls:

- **option store** (`option_store.dfy`, module `OptionStore`). This is the
  `user`/`tags` dictionary with its defaults, `getOpt` (a missing key reads as
  `None`) and `setOpt`.
- **option parsing** (`options.dfy`, module `Options`). getopt's result is an
  input value: an error, or the `(flag, argument)` pairs plus the leftover
  arguments. The loop of `parseOptions` folds that into the option store and
  the verbosity counter, or raises `Usage(code)`. `-t` appends a tag, `-u`
  overwrites the user, `-v` counts up and `-h` aborts.
- **text** (`text.dfy`, module `Text`). These are the string operations the
  program uses: `'=' * n`, `str()` of a non-negative integer and
  `"\n".join`. The program never splits a string. `Split`, Python's
  `str.split` on one character, is the model's reference inverse of the
  join. It is used to show that the printed output determines the ids.
- **reporting** (`report.dfy`, module `Report`). This covers the usage
  statement, the top-level routing of a `Usage` to standard error (code
  `EXIT_ERROR`) or standard output (any other code), and the verbosity gate
  of `verbose`. The usage statement's help lines read "monitor given tag" and
  "monitor given user" (src/findtweets.py:78-79). A diagnostic line is the
  '=' marks, then `"> "`, the message and a newline (src/findtweets.py:145).
- **selection** (`search.dfy`, module `Search`). This is the tail of
  `findTweets`. It concatenates the per-tag results and the mention results,
  reverses the list, keeps posts newer than the user's last post that the
  user did not write, and prints their ids one per line. The printed ids end
  with the newline that `print` adds (src/findtweets.py:184).
- **one run** (`cli.dfy`, module `Cli`). The main block is a pure function
  from the getopt result, the program name, the search service and the
  timestamp of the user's last post to what is written on both streams and
  the exit status.

The search service is a parameter, `string -> seq<Post>`, from the query
string (`#tag` or `@user`) to the posts it returns. The `since_id` and
`rpp` arguments are folded into that function. Timestamps are integers.

## Model

| member | source | states |
|---|---|---|
| OptionStore.GetOpt | src/findtweets.py:84-96 | the lookup yields None exactly when the key is absent, and the stored value otherwise |
| OptionStore.SetOpt | src/findtweets.py:134-137 | after a write the key is present and reads back as the written value; only that key is added |
| OptionStore.GetAfterSet | src/findtweets.py:134-137 | a write changes what the written key reads and leaves every other key reading as before |
| OptionStore.SetKeepsWellFormed | src/findtweets.py:122-127 | storing a list under `tags` or a string under `user` keeps both default keys present with their expected shapes |
| OptionStore.DefaultsWellFormed | src/findtweets.py:64-67 | a new object's dictionary maps `user` to the empty string and `tags` to the empty list |
| Options.FlagTestIsEquality | src/findtweets.py:120-128 | for the four option names getopt reports, the substring test `o in ("-h")` holds exactly when the two flags are equal |
| Options.TagArgs | src/findtweets.py:119-125 | there is one collected tag per `-t` pair; Options.ApplyAll shows the loop appends exactly these arguments |
| Options.Count | src/findtweets.py:119-129 | the number of pairs with a flag is positive exactly when the flag occurs, so `-v` raises verbosity iff it is given |
| Options.LastUserOrIsLast | src/findtweets.py:126-127 | the user picked is the argument of a `-u` with no later `-u`; the default is kept only when no `-u` is given |
| Options.ApplyOne | src/findtweets.py:119-129 | one loop step raises Usage(EXIT_SUCCESS) exactly on `-h`; any other step keeps the dictionary well formed |
| Options.ApplyAll | src/findtweets.py:119-131 | the loop raises exactly when some pair is `-h`, and always with EXIT_SUCCESS; otherwise the tags gain all `-t` arguments in order, the user is the last `-u` argument, and verbosity grows by the number of `-v` |
| Options.ParseOptions | src/findtweets.py:100-131 | a getopt error gives Usage(EXIT_ERROR); a `-h` gives Usage(EXIT_SUCCESS); otherwise the leftover args come back unchanged, tags are all `-t` arguments in order from an empty start, user is the last `-u` argument or "", and verbosity is the number of `-v` |
| Options.ParseOptionsUser | src/findtweets.py:64-65 | without `-h`, the parsed user is "" when there is no `-u`, else the argument of a `-u` that no later `-u` follows |
| Options.ExampleTagsAndUser | src/findtweets.py:119-127 | `-t foo -t bar -u alice` parses to tags ["foo", "bar"], user "alice" and verbosity 0 |
| Text.Repeat | src/findtweets.py:145 | `'=' * n` has length n and every character is '=' |
| Text.NatToString | src/findtweets.py:182 | `str(id)` is a non-empty string of decimal digits without a leading zero |
| Text.DecimalRoundTrip | src/findtweets.py:182 | reading the decimal rendering of an id back gives the id |
| Text.Join | src/findtweets.py:184 | `sep.join(xs)` starts with the first piece, has the length of the pieces plus one separator per pair of neighbours, and with an empty separator is the plain concatenation; Text.SplitJoin and Text.JoinSplit show Split inverts it |
| Text.Split | src/findtweets.py:184 | splitting gives at least one piece, and no piece contains the separator |
| Text.SplitJoin | src/findtweets.py:184 | splitting `"\n".join(xs)` at newlines gives back a non-empty xs whose pieces hold no newline |
| Text.JoinSplit | src/findtweets.py:184 | joining the pieces of a split with the separator restores the string |
| Report.UsageMessage | src/findtweets.py:75-81 | the usage statement is never empty |
| Report.Dispatch | src/findtweets.py:201-207 | the usage statement goes to standard error exactly when the code is EXIT_ERROR and to standard output otherwise; nothing else is written, and the exit status is the code |
| Report.Marks | src/findtweets.py:145 | `'=' * level` is `level` '=' characters, and empty for a level of zero or below |
| Report.VerboseLine | src/findtweets.py:140-145 | a line is written iff verbosity >= level; the line is `level` '=' marks, "> ", the message and a newline |
| Report.VerboseMonotone | src/findtweets.py:144 | a message written at some verbosity is written unchanged at every higher verbosity |
| Report.QuietByDefault | src/findtweets.py:69 | at the initial verbosity 0 no message of level 1 or more is written |
| Search.Reverse | src/findtweets.py:176 | the reversed list has the same length and holds the element at mirrored index |
| Search.ReverseAppend | src/findtweets.py:172-176 | reversing a concatenation concatenates the reversed parts in the opposite order |
| Search.ReverseMembers | src/findtweets.py:176 | reversal keeps exactly the same members |
| Search.Flatten | src/findtweets.py:167-172 | every post of every per-tag list is in the concatenation, and nothing else is |
| Search.FlattenLength | src/findtweets.py:167-172 | the concatenation's length is the sum of the per-tag list lengths |
| Search.Collect | src/findtweets.py:167-176 | the collected list holds every post the tag and mention queries returned, each as often as returned, and nothing else; Search.CollectOrder gives its order |
| Search.Select | src/findtweets.py:178-182 | every kept post is newer than `created_after` and not by `user`; every such input post is present in the result; nothing new appears; the result is no longer than the input |
| Search.SelectCounts | src/findtweets.py:178-182 | each fresh post is kept as many times as it occurs in the input, and every other post occurs zero times, so a post returned by two queries is printed twice |
| Search.ReverseMultiset | src/findtweets.py:176 | reversal keeps every post with its multiplicity |
| Search.SelectIsSubsequence | src/findtweets.py:178-182 | filtering keeps the kept posts in their input order |
| Search.SelectAppend | src/findtweets.py:178-182 | filtering a concatenation is the concatenation of the filtered parts |
| Search.SelectReverse | src/findtweets.py:176-182 | filtering after reversal equals reversing after filtering |
| Search.Selection | src/findtweets.py:167-182 | every selected post is newer than `created_after` and not by the user, and was returned by a tag or mention query; Search.SelectionSpec, Search.SelectionCounts and Search.SelectionMembers characterise it fully |
| Search.SelectionSpec | src/findtweets.py:167-182 | the selected posts are the fresh fetched posts in reverse fetch order; they form a subsequence of the collected list, number at most the total fetched, and none is by the user or at or before `created_after` |
| Search.SelectionCounts | src/findtweets.py:167-182 | each fresh fetched post is selected exactly as often as the tag and mention queries together returned it, and no other post is selected at all |
| Search.SelectionMembers | src/findtweets.py:167-182 | a post is selected exactly when it was fetched, is newer than `created_after` and is not by the user |
| Search.CollectOrder | src/findtweets.py:172-176 | the collected list is the mention results reversed, then the tag results reversed (last tag first) |
| Search.ReverseOrdersOldestFirst | src/findtweets.py:175-176 | a newest-first list comes out oldest-first after reversal |
| Search.IdStrings | src/findtweets.py:182 | one non-empty decimal numeral per selected post, in order, with no leading zero unless it is "0", each reading back as that post's id |
| Search.Output | src/findtweets.py:183-184 | nothing is printed exactly when there are no ids; otherwise the output ends in a newline and, when no id holds a newline, splitting the rest at newlines gives the ids back; Search.OutputLines applies this to the selected posts |
| Search.OutputLines | src/findtweets.py:183-184 | nothing is printed exactly when no post survives; otherwise the output ends in a newline, its lines are the surviving ids in order, and each line reads back as its post's id |
| Search.ExampleFilter | src/findtweets.py:176-182 | from four fetched posts against a last post at time 100 by alice, her own post and the stale one are dropped and the others come out oldest first |
| Cli.TagResults | src/findtweets.py:168-170 | one `#tag` query result per tag, in tag order |
| Cli.TagMessage | src/findtweets.py:171 | the per-tag message is "Got ", a decimal numeral with no leading zero unless it is "0", reading back as the number of posts the query returned, then " tweets for #", the tag and "." |
| Cli.TagDiagnostics | src/findtweets.py:171 | below verbosity 2 the per-tag diagnostics write nothing; from verbosity 2 on they are empty exactly when there are no tags |
| Cli.TagDiagnosticsLines | src/findtweets.py:168-171 | from verbosity 2 on, the diagnostics are one line per tag in tag order: `==> Got N tweets for #tag.` and a newline, with N the number of posts that tag's query returned |
| Cli.FindTweets | src/findtweets.py:167-184 | the search ends with exit status EXIT_SUCCESS and, at verbosity 0, writes nothing to standard error |
| Cli.Run | src/findtweets.py:194-207 | a getopt error writes the usage statement to standard error and exits 1; `-h` writes it to standard output and exits 0; otherwise the run exits 0 and, without `-v`, standard error stays empty |
| Cli.UsageMakesNoQueries | src/findtweets.py:197-207 | when parsing raises Usage, the outcome does not depend on the search service or on the last-post time |
| Cli.RunPrintsSelection | src/findtweets.py:155-184 | without `-h`, standard output is the ids of the fresh posts among the `#tag` results for each `-t` argument in order, then the `@user` results for the last `-u` argument, all reversed |
| Cli.ExampleRun | src/findtweets.py:194-207 | `-t news -u alice` with a last post at time 100 prints exactly "2\n3\n", the ids of the two fresh posts by others, oldest first, and writes nothing to standard error |

## Left out

- The search calls to the external client (src/findtweets.py:157, 170, 174) are network I/O. The service is a function parameter from query string to the posts returned. Its `since_id=last_id` and `rpp=100` arguments are part of that function, and its exceptions are not modelled.
- The last-post lookup (src/findtweets.py:157-165) is not modelled. Its timestamp is the `createdAfter` parameter. As written, `[0]` raises IndexError on an empty result before the `if last:` test. The fallback branch also uses `datetime`, which is never imported. So the fallback the comment describes, which would pass on all posts created after the 20th century, cannot be reached.
- getopt's tokenising of argv is a library call. Only its result is modelled: an error, or the option pairs and leftover arguments.
- `os.path.basename(sys.argv[0])` in the usage statement is the `prog` parameter.
- The KeyboardInterrupt handler (src/findtweets.py:210-212) is not modelled, and neither is an uncaught exception ending the process. `INTERVAL`, `VERSION` and the unused `self.msg` attribute are inert and left out.
- Options.ParseOptions: when `-h` follows other options, the source has already applied those options before raising. The model returns only the Usage, because the top level discards the partly filled object anyway.
- Post ids are non-negative integers, and `str()` is modelled only for them.
- Cli.FindTweets: its contract covers only the exit status and the quiet case. What it prints is stated by Cli.RunPrintsSelection. The per-tag diagnostics are stated by Cli.TagDiagnosticsLines. The level-1 total line is stated only through Report.VerboseLine.
- Report.UsageMessage: its contract states only that the text is non-empty. The text itself is the function's definition.
