# Smart Modem Manager, verified model

Smart Modem Manager (SMM) stands between a host and a modem. It tokenises AT text from both
sides, dispatches it to the handlers of its extensions, keeps a stack of commands that wait for
an asynchronous answer, follows the data calls the modem reports, and keeps one packet data
context in a text record on disk. This project models those parts in Dafny and proves what holds
over every input, every run and every content of the file.

`dafny verify dfyconfig.toml` checks everything.

| file | content |
|---|---|
| `Limits.dfy` | the sizes of messages, tokens and argument arrays |
| `Text.dfy` | splitting, joining, NUL-terminated text, decimal numbers |
| `TokenBuffer.dfy` | the zeroed buffer and write pointer of both tokenisers |
| `AtCommandParser.dfy`, `AtResponseParser.dfy` | what a line means, the tokeniser loop that computes it, a printer and the round trip |
| `Scanf.dfy`, `Persistence.dfy`, `Recovery.dfy` | a format interpreter, the record, its file, store and load; what a load returns, to the last field |
| `DcContext.dfy`, `ContextRuns.dfy`, `RecordBounds.dfy` | a context; runs of AT+CGDCONT and AT+XGAUTH over context and file; how long their records get |
| `DataCalls.dfy` | reports of data calls as a keyed update, with tethering events |
| `World.dfy` | the state of the proxy and what every command, response and modem answer does to it |
| `ModemResults.dfy`, `FinalResults.dfy` | the final results of a modem as text; which result settles a pending command |
| `RecordFormat.dfy` | the record as the C format string prints and scans it, its file and buffers |
| `Dispatch.dfy`, `Handlers.dfy` | which command takes a line; what every command does, from typed text to texts read |
| `Replies.dfy`, `ReportTexts.dfy` | what the host reads of a reply: its result and its fields |
| `Protocol.dfy`, `SerialHost.dfy`, `ScidLedger.dfy`, `Activation.dfy`, `Sessions.dfy`, `KeyedRuns.dfy` | properties of steps and whole runs |
| `Reinjection.dfy` | text that the writer offers to a root again |
| `Netconf.dfy`, `SmmCore.dfy` | the running objects: each method is proved equal to what `World` says, re-injection included |

Each loop and each object method of the original is a method here; its postcondition equates its
result and new state with a function on values, and the lemmas are about those functions. Three
levels stack up: characters to parsed messages, parsed messages to reactions, reactions to runs.

Findings on the way, each stated by a member below:

- The writer is built as (command root, response root) where its constructor's parameters are
  named (to host, to device): text to the host is offered to the command root. The claims about
  re-injection hold for this wiring and fail for the one the names suggest.
- "Dequeue" takes the newest entry: the pending list is a stack. Under a host that waits for final
  results it never holds more than one entry and then acts as a queue.
- A plain OK drops a waiting AT^SCID without a result.
- A successful release leaves the context active until the modem reports the call down.
- A successful AT+CGACT activation answers OK even when the reported call is down or belongs to
  another context.
- A read or test command is accepted only with exactly one line-end character.
- Name and password are not recovered when either is empty, and what follows the record, in the
  file or in memory, can then be taken for them. With an empty name the password comes back as the
  name. A record of AT+CGDCONT can therefore exceed 319 characters: three commands reach 376, with
  every load inside its variables. The next record is bounded by 319 exactly when mode, name and
  password, as they will be loaded, have at most 139 characters together.
- A reply is cut to 127 characters and then carries no final result: with the longest credentials
  AT+XGAUTH? is answered by a text that ends inside the password. A host that waits for the result
  waits for ever.
- AT+CGDCONT accepts an empty name and one with white space, and answers OK; the record it stores
  then does not give that definition back.
- A line of 256 characters can carry more arguments than the array of 32 holds; the tokeniser does
  not look.
- Context 0 can get the cid of another context: from the argument of AT+CGDCONT=, and from the file
  when any command loads it, a plain AT+CGDCONT? included.
- A report list of 256 or more entries is never finished by the 8-bit loop counter.

## Model

| member | source | states |
|---|---|---|
| AtCommandParser.Tokenise | core/src/AtCommandParser.cpp:45-128 | for every data whose tokens fit the buffer, the in-place loop yields the declarative meaning of the line: name before the first delimiter, kind from the last two delimiters, arguments as comma fields of every stretch after `=`, question mark second to last; and it tells exactly when the line has more than 30 arguments, which overruns the array |
| AtCommandParser.TakeChar | core/src/AtCommandParser.cpp:65-103 | the branches of the loop body, on buffer and variables, are one step of the reading |
| AtCommandParser.PrintedOverruns | core/src/AtCommandParser.cpp:89-95 | a printed assignment overruns the array if and only if it has more than 30 arguments, not counting an empty last one |
| AtCommandParser.FewCommasFit | core/src/AtCommandParser.cpp:89-114 | a line overruns the array only if it has at least 30 commas |
| AtCommandParser.ArgsFree | core/src/AtCommandParser.cpp:65-96 | no separator reaches an argument, for every line |
| AtCommandParser.ReadAllMeans | core/src/AtCommandParser.cpp:64-104 | after any prefix, the loop's variables are the delimiters, stretches and first question mark of that prefix |
| AtCommandParser.FinishAssembles | core/src/AtCommandParser.cpp:105-120 | the statements after the loop complete those variables to the declarative command, including the `len-2` rejection and the dropped trailing empty argument |
| AtCommandParser.QueryMarkIsFirst | core/src/AtCommandParser.cpp:78-80 | the recorded mark is the first question mark not at index 0; a mark at index 0 counts as none |
| AtCommandParser.ShortTextFits | core/src/AtCommandParser.cpp:52-54 | text shorter than 128 characters never overruns the token buffer |
| AtCommandParser.RoundTrip | core/src/AtCommandParser.cpp:65-120 | printing any clean command (execution, read, test, write with quoted or bare, possibly empty arguments) with any line end and parsing it gives the same name, kind and arguments; read and test survive exactly with one line-end character, a trailing empty argument is dropped |
| AtCommandParser.SecondAssignment | core/src/AtCommandParser.cpp:65-96 | in a line with two `=`, the argument no comma has closed before the second is dropped, the closed ones stay and the later ones follow |
| AtCommandParser.AskedAssignment | core/src/AtCommandParser.cpp:72-119 | a question mark after arguments makes a test command of the closed ones, accepted when exactly one character follows |
| TokenBuffers.TokenBuffer.Put | core/src/AtCommandParser.cpp:97-103 | storing and advancing appends one character and everything from the write pointer on stays zero |
| TokenBuffers.TokenBuffer.Leave | core/src/AtResponseParser.cpp:66-84 | advancing without writing leaves a hidden zero in the token |
| TokenBuffers.TokenBuffer.Drop | core/src/AtCommandParser.cpp:99-103 | stepping back and forth deletes the character |
| TokenBuffers.TokenBuffer.Reset | core/src/AtCommandParser.cpp:70-71 | the buffer is empty and zeroed again |
| TokenBuffers.TokenBuffer.Dup | core/src/AtCommandParser.cpp:91 | a copy of the buffer is what was written, cut at the first zero in it |
| AtResponseParser.Tokenise | core/src/AtResponseParser.cpp:48-116 | for every input up to 256 characters the in-place loop yields the declarative meaning of the text, with no precondition on its contents |
| AtResponseParser.ReadAllMeans | core/src/AtResponseParser.cpp:65-114 | after any tokens, the loop's variables are: kind of the last keyword, name of the last error keyword or else the first colon, and the comma fields since the last colon of each part, each hidden from its first keyword on |
| AtResponseParser.NoStraddle | core/src/AtResponseParser.cpp:66-84 | a keyword never matches across the end of text that is followed by a delimiter |
| AtResponseParser.LexPrinted | core/src/AtResponseParser.cpp:65-114 | a printed response is read as exactly its name, colon, arguments and final OK, for all texts free of delimiters and keywords |
| AtResponseParser.RoundTrip | core/src/AtResponseParser.cpp:65-117 | `name: a1,…,an` between line ends and followed by OK parses to that name, an OK kind and exactly those arguments |
| ModemResults.ErrorParses | core/src/AtResponseParser.cpp:73-78 | `ERROR` between any line ends parses to that name, the error kind and one empty argument |
| ModemResults.CmeErrorParses | core/src/AtResponseParser.cpp:79-84 | `+CME ERROR: d` between any line ends parses to that name, its kind and the argument d |
| ModemResults.OkParses | core/src/AtResponseParser.cpp:66-72 | `OK` between any line ends parses to that name, the OK kind and one empty argument |
| ModemResults.ColonResets | core/src/AtResponseParser.cpp:86-97 | a second colon resets the argument and leaves the name |
| ModemResults.KeywordHides | core/src/AtResponseParser.cpp:66-72 | a keyword inside an argument hides the rest of it and sets the kind |
| ModemResults.SpacesAfterColon | core/src/AtResponseParser.cpp:93-96 | a colon takes all the spaces after it |
| AtResponseParser.FindKeyword | core/src/AtResponseParser.cpp:66-84 | the comparison cascade finds exactly the keyword the specification names at that position |
| AtResponseParser.SkipSpacesAfter | core/src/AtResponseParser.cpp:93-95 | the inner loop stops at the first character that is not a space |
| Scanf.ScanShape | core/src/NetconfLinuxPersistence.cpp:127-149 | whatever the text, the results of a scan are a prefix of the conversions of the format, each of its type |
| Scanf.ScanPrefix | core/src/NetconfLinuxPersistence.cpp:145-149 | scanning a prefix of a format gives a prefix of the results, so the four-field attempt agrees with the six-field one |
| Scanf.ScanDec | core/src/NetconfLinuxPersistence.cpp:73-80 | `%d` reads back every integer `%d` printed when no digit follows |
| Persistence.FormatShapes | core/src/NetconfLinuxPersistence.cpp:127-149 | the two formats convert number, text, text, number, and for the longer one two more texts |
| RecordFormat.FormatsAreRead | core/src/NetconfLinuxPersistence.cpp:127-149 | the two formats of the scans are the directives of the two C format strings |
| RecordFormat.RecordIsPrinted | core/src/NetconfLinuxPersistence.cpp:73-80 | the record is what the first of them prints for cid, name, type, mode, user and password, in this order |
| RecordFormat.StaleBytesStay | core/src/NetconfLinuxPersistence.cpp:71-87 | a store overwrites the front of the file, which never gets shorter and keeps its other bytes |
| RecordFormat.PrintIsCut | core/src/NetconfLinuxPersistence.cpp:62-85 | up to 511 characters a record is written whole; past that its first 511, a NUL and memory |
| RecordFormat.ReadIsCut | core/src/NetconfLinuxPersistence.cpp:108-119 | a load sees the first 512 bytes and the memory behind them up to a NUL, and nothing of a missing or empty file |
| RecordFormat.StalePassword | core/src/NetconfLinuxPersistence.cpp:71-144 | after a longer record, a shorter one without a password loads a word of the longer one as its password |
| Persistence.ScanFields | core/src/NetconfLinuxPersistence.cpp:127-159 | whatever the text, both attempts deliver fields in record order, each of its type, and the four-field attempt a prefix of the six-field one |
| Persistence.ApplyRecord | core/src/NetconfLinuxPersistence.cpp:127-159 | a record followed by any bytes gives back cid, APN, type and mode through either format; name and password too when both are clean; nothing else in the context changes |
| Persistence.CredentialsRecovered | core/src/NetconfLinuxPersistence.cpp:127-143 | the first of the two scans returns the stored name and password if and only if both are non-empty and free of white space, whatever follows |
| Recovery.LoadExactly | core/src/NetconfLinuxPersistence.cpp:102-168 | what a load makes of any context, from any file that starts with a record and any memory behind it, to the last field: the definition, and name and password by cases on the stored ones and the bytes that follow |
| Recovery.ScanCredentialsExactly | core/src/NetconfLinuxPersistence.cpp:127-133 | which words are read as name and password, for every stored pair, blanks inside included, and every tail |
| Recovery.LeftByCases | core/src/NetconfLinuxPersistence.cpp:127-159 | for pairs without blanks: both non-empty come back; an empty password is the first word that follows; an empty name becomes `pwd=` and the password if a password field follows; otherwise the context keeps its own |
| Recovery.LoadRecoversExactly | core/src/NetconfLinuxPersistence.cpp:102-168 | a load, fallback included, leaves the stored name and password if and only if both are clean, or no password is found and the context held them already |
| Persistence.EmptyCredentialsTakeStaleBytes | core/src/NetconfLinuxPersistence.cpp:127-144 | with both credentials empty, stale text `pwd=word` makes the load return name `pwd=` and password `word` |
| Persistence.LoadRecord | core/src/NetconfLinuxPersistence.cpp:102-168 | a file that starts with a record under 512 characters loads that record, whatever file bytes and memory follow |
| Persistence.LoadAfterHistory | core/src/NetconfLinuxPersistence.cpp:56-168 | after any history of stores on the file that is never truncated, load returns the last store |
| Persistence.NetconfLinuxPersistence.StoreDcContext | core/src/NetconfLinuxPersistence.cpp:56-100 | on success the file starts with the print of the context and keeps its old bytes after it; on failure it is unchanged |
| Persistence.NetconfLinuxPersistence.LoadDcContext | core/src/NetconfLinuxPersistence.cpp:102-168 | the fields set one by one are those of the load on values; a failed load changes nothing |
| ContextRuns.RunKeepsLastWrite | extensions/netconf/src/NetconfAtCommandParser.cpp:226-341 | over any run of definitions, credential changes, queries and modem reports whose last stored definition has a name that is non-empty and free of white space, the file starts with a record holding the last write of each field; writes before the last definition without such a name do not count for mode and credentials |
| ContextRuns.LoadAfterRun | extensions/netconf/src/NetconfAtCommandParser.cpp:226-341 | after any such run any context that loads gets the last definition and, as far as they were written since the last definition that cannot be read back, the last accepted mode and the last clean credentials |
| ContextRuns.DefinitionLoadsExactly | extensions/netconf/src/NetconfAtCommandParser.cpp:270-341 | after any run and over any file, the definition that AT+CGDCONT stores loads back if and only if its name is non-empty and free of white space, which the handler does not check |
| Recovery.DefinitionRecoveredExactly | core/src/NetconfLinuxPersistence.cpp:127-159 | the same for any stored record: cid, type, mode and name come back if the name is clean, and the name only then |
| Recovery.LoadAnyExactly | core/src/NetconfLinuxPersistence.cpp:102-168 | for any record whose name has no `=`: the load fails if and only if the name is not one word, blanks around it aside, or the type is empty; otherwise it gives that word as the name and every other field exactly |
| ContextRuns.DefineKeepsLastWrite | extensions/netconf/src/NetconfAtCommandParser.cpp:308-341 | a stored definition keeps mode and clean credentials of the record before it |
| ContextRuns.AuthenticateKeepsLastWrite | extensions/netconf/src/NetconfAtCommandParser.cpp:424-454 | stored credentials keep the definition of the record before them, and a wrong cid leaves the file alone |
| ContextRuns.AuthenticateExactly | extensions/netconf/src/NetconfAtCommandParser.cpp:424-449 | once a record is stored, AT+XGAUTH succeeds if and only if it names the stored, defined cid and the store succeeds, whatever memory holds |
| RecordBounds.EveryRecordFits | core/src/NetconfLinuxPersistence.cpp:73-80 | from an empty file, over any run of commands and of reports with interface names a token could hold, no record is longer than 191 + 2m characters when loads scan at most m, so never longer than 445 and the 512-byte print never truncates |
| RecordBounds.RecordsFitExactly | core/src/NetconfLinuxPersistence.cpp:73-80 | after any such run from an empty file, every record the next command can store is at most 319 characters if and only if mode, name and password that record, tail and memory will load to have at most 139 |
| RecordBounds.ProxyRecordsFitExactly | extensions/netconf/src/NetconfAtCommandParser.cpp:226-454 | the same after any run of the whole proxy from its start, whatever text the host sent |
| RecordBounds.NextFitsExactly | extensions/netconf/src/NetconfAtCommandParser.cpp:308-341 | the same for any context and file with a bounded definition; records of AT+XGAUTH never exceed the bound |
| RecordBounds.RecordBeyondBound | extensions/netconf/src/NetconfAtCommandParser.cpp:400-444 | a definition, a password of 64 without a name and a second definition store 376 characters, each load within 127 |
| RecordBounds.PasswordBecomesName | core/src/NetconfLinuxPersistence.cpp:127-144 | after a password without a name, memory that spells a password field makes the next definition store `pwd=` and the old password as the name |
| RecordBounds.MemoryBecomesCredentials | core/src/NetconfLinuxPersistence.cpp:118-144 | nobody need have typed the credentials of a record: after one definition on an empty file, memory that spells a password field is stored by the next |
| ContextRuns.RecordBound | core/src/NetconfLinuxPersistence.cpp:73-80 | a context with bounded fields prints at most 191 characters besides its credentials |
| ContextRuns.ScanNulFree | core/src/NetconfLinuxPersistence.cpp:127-149 | scanned texts hold no NUL, so no load breaks a later print |
| DataCalls.FindFrom | extensions/netconf/src/NetconfRilClient.cpp:341-346 | the index is the first context with that cid or the undefined one, or the end when none fits |
| DataCalls.UpdateLookup | extensions/netconf/src/NetconfRilClient.cpp:334-396 | after a report its cid has a context showing the report and every other cid is unchanged |
| DataCalls.UpdateChangesOnly | extensions/netconf/src/NetconfRilClient.cpp:334-396 | a report changes one context, the first that fits or a fresh one at the end, and there only the reported fields; an edge raises its one event with the reported cid, interface and servers |
| DataCalls.UpdateKeepsKeyed | extensions/netconf/src/NetconfRilClient.cpp:341-354 | a report keeps the list non-empty with distinct cids and the undefined one only alone |
| DataCalls.LastWriteWins | extensions/netconf/src/NetconfRilClient.cpp:398-405 | a list of reports acts as a last-write-wins map: each listed cid ends with its last report, every other context unchanged |
| DataCalls.RedefineKeepsKeyedExactly | extensions/netconf/src/NetconfAtCommandParser.cpp:315-317 | giving context 0 any value keeps the cids distinct if and only if no other context has its cid (and -1 is not given to one of several) |
| DataCalls.ListLoopEnds | extensions/netconf/src/NetconfRilClient.cpp:402-404 | the 8-bit counter reaches the end of the list if and only if it has at most 255 entries |
| DataCalls.UpdateKeepsTethered | extensions/netconf/src/NetconfRilClient.cpp:347-395 | a report keeps the tethering log in agreement with the contexts, object by object and in total |
| DataCalls.FieldsKeepTethered | extensions/netconf/src/NetconfAtCommandParser.cpp:315-317 | setting other fields of a context does not disturb that agreement |
| Protocol.CommandReacts | extensions/netconf/src/NetconfAtCommandParser.cpp:485-557 | for any text and any extensions: not consumed means nothing changed; consumed means exactly one of one text to the host, one request with one new pending entry and no host text, or one plain device text |
| Protocol.ResponseAnswers | core/src/CompositeMessageParser.cpp:83-94 | for any response and any children: consumed if and only if one result went to the host, not consumed if and only if none did; the stack only loses entries, at most one for each child |
| Protocol.ResponseSettles | core/src/AtResponseParser.cpp:129-184 | a response removes at most one AT+CGACT entry and then writes exactly one OK or ERROR, however many children dequeue |
| Protocol.TopSettles | core/src/AtResponseParser.cpp:141-183 | each dequeuing site writes exactly one OK or ERROR when it removes an AT+CGACT entry, and none otherwise removes one |
| FinalResults.CgactSettledExactly | core/src/AtResponseParser.cpp:129-184 | with an AT+CGACT on top of any stack, for any extensions and response: an error name in any case gives exactly ERROR, OK or an identifier with its result exactly OK, each removing exactly that entry, and any other response changes nothing |
| FinalResults.ScidSettledExactly | extensions/atsample/src/AtsampleAtCommandParser.cpp:239-255 | with an AT^SCID on top, for any response but OK: an error name gives exactly ERROR, an identifier with its result exactly its translation, and any other response changes nothing |
| FinalResults.ErrorSettles | core/src/AtResponseParser.cpp:154-166 | `ERROR` from the modem, whatever is on top: that entry leaves and the host reads exactly ERROR |
| FinalResults.CmeErrorSettles | core/src/AtResponseParser.cpp:129-147 | so does `+CME ERROR` with any plain cause |
| FinalResults.OkSettles | core/src/AtResponseParser.cpp:173-184 | `OK` from the modem settles an AT+CGACT with exactly OK |
| Protocol.StepLedger | extensions/netconf/src/NetconfRilClient.cpp:480-487 | a command sends a request exactly when it adds an AT+CGACT entry; any other step removes at most one, with its one result |
| Protocol.RunLedger | core/src/Netconf.cpp:85-108 | over every run, requests sent equal AT+CGACT entries still pending plus the texts their settling steps wrote to the host, each an OK or an ERROR |
| ScidLedger.RunScidLedger | core/src/Netconf.cpp:85-108 | over every run, AT^SCID entries ever pending equal those still pending, plus the texts that answered one, each an ERROR or an identifier, plus those dropped by an OK without identifier |
| ScidLedger.ResponseBalances | core/src/AtResponseParser.cpp:129-184 | one response balances the AT^SCID of any stack: removed are exactly those answered and those dropped |
| Protocol.RunKeepsTethered | extensions/netconf/src/NetconfRilClient.cpp:388-395 | over every run, commands included: the events of each context object alternate, established first, and established minus terminated equals the active contexts |
| Replies.ReplyDelivers | core/src/ProxyOutputWriter.cpp:63-83 | in every state, a command that replies at once delivers its finished report cut to 127 characters, or a bare OK or ERROR |
| Replies.ReplyIsWholeExactly | core/src/ProxyOutputWriter.cpp:70-78 | for every state, text and set of extensions, a reply with data is finished by a result and reaches the host whole if and only if it has fewer than 128 characters; any other reply is a result |
| Replies.EmbeddedResult | core/src/ProxyOutputWriter.cpp:70-71 | a cut text can still end with OK when one of its fields spells one at the cut, so Replies.ReplyEndsExactly needs one-line fields |
| Replies.ReplyEndsExactly | core/src/ProxyOutputWriter.cpp:70-78 | after any run, the text a reply adds ends with OK or ERROR if and only if the finished reply is shorter than 128 characters |
| Replies.RunKeepsOneLine | extensions/netconf/src/NetconfRilClient.cpp:358-367 | over every run no field of context 0 holds a line end unless a report brought one in; arguments and loads never do |
| Replies.CredentialsAreCut | extensions/netconf/src/NetconfAtCommandParser.cpp:367-372 | with name and password of 64 characters the reply to AT+XGAUTH? ends inside the password, without a result |
| Replies.CredentialsQueryIsCut | extensions/netconf/src/NetconfAtCommandParser.cpp:354-379 | so the query is consumed and answered by 127 characters without OK |
| KeyedRuns.StepKeepsKeyedExactly | extensions/netconf/src/NetconfRilClient.cpp:341-354 | a step keeps the cids distinct if and only if the cid it is about to give context 0, an accepted argument or the one in the file, is free; known before the step, and reports and all other commands give none |
| KeyedRuns.RunKeepsKeyedExactly | core/src/Netconf.cpp:45-48 | from the start on any file, the cids are distinct and the undefined one alone after every step of a run if and only if no step of it collides |
| KeyedRuns.ReportsKeepKeyed | extensions/netconf/src/NetconfRilClient.cpp:334-405 | over every run of reports, answers and responses alone they are |
| KeyedRuns.DefinitionCollides | extensions/netconf/src/NetconfAtCommandParser.cpp:315-317 | after reports of two calls, a definition with the cid of the second gives two contexts that cid |
| KeyedRuns.QueryCollides | extensions/netconf/src/NetconfAtCommandParser.cpp:226-237 | so does AT+CGDCONT? when the record has that cid |
| SerialHost.ScidTranslated | extensions/atsample/src/AtsampleAtResponseParser.cpp:67-88 | with AT^SCID on top, `+CCID: s` and OK give the host `^SCID: s` with OK and pop exactly that entry, unless the chunk is over 256 characters and refused; the text is whole, and carries its OK, if and only if s has at most 114 characters |
| SerialHost.ScidDroppedExactly | extensions/atsample/src/AtsampleAtCommandParser.cpp:239-255 | an AT^SCID on top of any stack is dropped without a result if and only if the response is looked at and named OK |
| SerialHost.ChildrenDropExactly | core/src/AtResponseParser.cpp:173-184 | for any stack and response, entries removed equal results written plus, when the response is named OK, as many of the AT^SCID on top as there are children |
| SerialHost.PlainOkDrops | core/src/AtResponseParser.cpp:173-184 | a plain OK drops a lone AT^SCID, and with two children it also settles an AT+CGACT below it |
| SerialHost.MessageFound | core/src/MessageParser.cpp:57-68 | which response message answers to a name, for every name in any case |
| SerialHost.StepSound | core/src/Netconf.cpp:101-108 | under a serial host no allowed step stacks a command on a waiting one, one leaves the stack only with its one result, nothing else reaches the host while one waits, and only a command is answered at once |
| SerialHost.SerialRun | core/src/Netconf.cpp:85-108 | over every serial run, with or without the Atsample extension, at most one command is pending and every host command got exactly one reply at once, or was issued, or was left to the modem; the host log is exactly those replies and, in the order issued, one result for each command not pending any more, and nothing unasked: OK for an AT+CGACT exactly when the interface reported success, the modem's identifier or ERROR for an AT^SCID; every text but a cut last one carries a final result |
| SerialHost.TruncatedExactly | core/src/ProxyOutputWriter.cpp:70-78 | a command leaves the host waiting for ever if and only if it is answered at once and its finished reply has 128 characters or more |
| Activation.WaitsExactly | extensions/netconf/src/NetconfAtCommandParser.cpp:485-557 | a request is sent if and only if the proxy is registered, the state of context 0 would change, the type is known when activating and the modem interface accepts; the cid argument plays no part |
| Handlers.CgactAnswers | extensions/netconf/src/NetconfAtCommandParser.cpp:485-557 | typed in any case: the host reads OK at once if and only if the proxy is registered and context 0 is in the asked state, a request is sent if and only if the state differs and type and interface allow it, and ERROR is read in every other case; the request carries APN, type and bearer of context 0, or the low byte of its cid |
| Handlers.CgactTyped | extensions/netconf/src/NetconfAtCommandParser.cpp:456-459 | the same for the line `AT+CGACT=state,cid` with any texts, quotes and line end |
| Handlers.CgactWrites | extensions/netconf/src/NetconfRilClient.cpp:407-465 | the same for the handler alone, whatever its arguments |
| Activation.ActivationCompletes | extensions/netconf/src/NetconfRilClient.cpp:467-488 | a successful setup gives the host one OK; context 0 is then active if and only if the reported call is up and fits context 0, if and only if tethering starts for it, if and only if repeating the command is answered at once |
| Activation.ActivationFails | extensions/netconf/src/NetconfRilClient.cpp:473-487 | a failed setup gives one ERROR and changes no context |
| Activation.ReleaseLeavesActive | extensions/netconf/src/NetconfRilClient.cpp:490-533 | a successful release gives one OK but the context stays active, and deactivating again sends again |
| Activation.ReportEndsRelease | extensions/netconf/src/NetconfRilClient.cpp:388-390 | a report makes an active context 0 inactive if and only if the call is down and fits it, if and only if it stops tethering for it, if and only if the next release is answered at once |
| Dispatch.TakenExecutes | core/src/CompositeMessageParser.cpp:83-94 | a line is executed by exactly one handler: the first child that knows the name and does not decline |
| Handlers.NetconfFound | extensions/netconf/src/NetconfAtCommandParser.cpp:110-457 | which command of the extension answers to a name, for every name in any case, by the seven names themselves |
| Handlers.AtsampleFound | extensions/atsample/src/AtsampleAtCommandParser.cpp:61-372 | which command of the extension answers to a name, by its eight names |
| Handlers.Executed | core/src/MessageParser.cpp:57-68 | a typed name, AT+CGMM aside, is executed by its command wherever its extension stands |
| Handlers.CgdcontAnswers | extensions/netconf/src/NetconfAtCommandParser.cpp:255-341 | an accepted definition sets cid, type and name of the loaded context and is answered with OK if and only if the store succeeds, else with ERROR; too few arguments, an unknown type or a bad address give ERROR and touch nothing |
| Handlers.XgauthAnswers | extensions/netconf/src/NetconfAtCommandParser.cpp:381-454 | OK if and only if the store succeeds and the cid is the loaded, defined one; mode, name and password are set then, in that order; too few arguments or more than 64 characters give ERROR and touch nothing |
| Handlers.XgauthAnswersStored | extensions/netconf/src/NetconfAtCommandParser.cpp:424-449 | with a record in the file the cid that counts is the stored one |
| Handlers.CgdcontReports | extensions/netconf/src/NetconfAtCommandParser.cpp:226-253 | the query loads the record into context 0 and reports from there, and nothing else happens |
| Handlers.XgauthReports | extensions/netconf/src/NetconfAtCommandParser.cpp:354-379 | so does the query of the credentials |
| Handlers.TestsAreLeft | extensions/netconf/src/NetconfAtCommandParser.cpp:461-465 | test commands of AT+CGDCONT, AT+XGAUTH and AT+CGACT are left to the modem, whatever the extensions |
| Handlers.CgpaddrAnswers | extensions/netconf/src/NetconfAtCommandParser.cpp:114-156 | only the cid of the activated context 0 has an address; the other forms answer as listed |
| Handlers.CgcontrdpAnswers | extensions/netconf/src/NetconfAtCommandParser.cpp:163-213 | only the cid of the activated context 0 has parameters; the other forms answer as listed |
| Handlers.CgmmAnswers | core/src/CompositeMessageParser.cpp:83-94 | AT+CGMM, which both extensions have, is answered by the first |
| Handlers.AtzAnswers | extensions/netconf/src/NetconfAtCommandParser.cpp:60-107 | ATZ is answered with OK in every form but a rejected question mark |
| Handlers.CgactReports | extensions/netconf/src/NetconfAtCommandParser.cpp:467-483 | the query reports cid and activation of context 0 and changes nothing |
| Handlers.SradcAnswers | extensions/atsample/src/AtsampleAtCommandParser.cpp:264-293 | a write with an argument reports that channel; every other form is an ERROR |
| Handlers.SmoniAnswers | extensions/atsample/src/AtsampleAtCommandParser.cpp:302-365 | the query gives the registration text in its frame, a test OK, and every other form ERROR |
| Handlers.UndefinedAnswers | core/src/AtCommand.cpp:56-58 | a rejected question mark after a known name is answered with ERROR |
| Handlers.ScidTyped | extensions/atsample/src/AtsampleAtCommandParser.cpp:218-230 | the line `AT^SCID` with any line end enqueues one entry and asks the device once |
| Handlers.CountingAnswers | extensions/atsample/src/AtsampleAtCommandParser.cpp:68-204 | AT^SCPIN, AT^SSIO and AT^SPIO are answered with OK if and only if they write at least 3, 2 and 1 arguments |
| Handlers.SwwanAnswers | extensions/atsample/src/AtsampleAtCommandParser.cpp:374-406 | AT^SWWAN is forwarded to the device in the same form, and nothing else happens |
| Handlers.SwwanParses | extensions/atsample/src/AtsampleAtCommandParser.cpp:404 | the forwarded text reads as an AT+CGACT write of the state and the cid, in this order, for all numbers |
| Handlers.OtherLengthsAreLeft | core/src/smm_core.cpp:68-71 | lines of more than 256 or less than 3 characters are left alone |
| Handlers.OtherNamesAreLeft | core/src/MessageParser.cpp:57-68 | so are lines with any other name |
| Handlers.FreshAnswers | core/src/Netconf.cpp:40-49 | a fresh proxy has no definition and no activation to report and refuses to activate |
| ReportTexts.CgdcontReads | extensions/netconf/src/NetconfAtCommandParser.cpp:240-246 | reading the reply between its name and the empty line at commas gives cid, type, name, address and both compressions |
| ReportTexts.XgauthReads | extensions/netconf/src/NetconfAtCommandParser.cpp:368-372 | reading the reply gives cid, mode, name and password |
| ReportTexts.CgactReads | extensions/netconf/src/NetconfAtCommandParser.cpp:474-476 | reading the reply gives the cid and 1 if and only if it is activated |
| ReportTexts.CidReads | extensions/netconf/src/NetconfAtCommandParser.cpp:117-121 | reading the reply gives the cid if and only if context 0 is activated, and nothing otherwise |
| ReportTexts.SradcReads | extensions/atsample/src/AtsampleAtCommandParser.cpp:290 | reading the reply gives the channel, 1 and 875 |
| ReportTexts.CgpaddrReads | extensions/netconf/src/NetconfAtCommandParser.cpp:148-150 | reading the reply gives cid and address |
| ReportTexts.CgcontrdpReads | extensions/netconf/src/NetconfAtCommandParser.cpp:201-207 | reading the reply gives cid, bearer, name, twice the address, and both servers |
| ReportTexts.UndefinedReads | extensions/netconf/src/NetconfAtCommandParser.cpp:248 | without a defined cid the three queries answer with their name alone |
| Text.CaseIsIgnored | core/src/MessageParser.cpp:63 | names agree exactly when their letters are the same but for case and all other characters the same |
| Text.DecReads | core/src/NetconfLinuxPersistence.cpp:73-80 | numbers are printed in decimal, most significant digit first, with a minus sign when negative |
| Sessions.OthersKeepStore | extensions/netconf/src/NetconfAtCommandParser.cpp:109-213 | no handler but those of AT+CGDCONT and AT+XGAUTH changes context 0 or the file |
| Sessions.StepTraced | extensions/netconf/src/NetconfAtCommandParser.cpp:226-454 | one step of the whole proxy, from any text or answer, acts on context 0 and the file as its trace of definitions, credential changes, queries and reports |
| Sessions.RunTraced | extensions/netconf/src/NetconfAtCommandParser.cpp:226-454 | so does every run |
| Sessions.DefinitionTyped | extensions/netconf/src/NetconfAtCommandParser.cpp:255-341 | typing AT+CGDCONT with three clean arguments of less than 128 characters, quoted or not, with any line end, is exactly one definition with those values and never overruns a token, unless the line is over 256 characters and refused |
| AtCommandParser.PrintedFits | core/src/AtCommandParser.cpp:52-104 | a printed assignment fits the token buffer whenever its name and each of its arguments do |
| AtCommandParser.ArgsUndeleted | core/src/AtCommandParser.cpp:97-101 | no line end and no quote reaches an argument, for every line |
| AtResponseParser.ArgsUndeleted | core/src/AtResponseParser.cpp:106-110 | no line end and no quote reaches an argument of a response |
| Sessions.LoadAfterAnyRun | core/src/NetconfLinuxPersistence.cpp:102-168 | after any run of the whole proxy whose last stored definition has a non-empty name free of white space, a load returns it, and the accepted mode and clean credentials written since a definition that cannot be read back |
| Sessions.QueryReportsLastDefinition | extensions/netconf/src/NetconfAtCommandParser.cpp:226-253 | after any such run AT+CGDCONT? reports that definition, even over what the modem wrote into context 0 |
| Reinjection.ForeignIsIgnored | core/src/ProxyOutputWriter.cpp:73-79 | text that does not start like a command passes the command root of any extensions without any effect |
| Reinjection.QuietIsIgnored | core/src/ProxyOutputWriter.cpp:95-101 | text without colon and keyword letters passes the response root without any effect |
| Reinjection.DeliveredOnce | core/src/ProxyOutputWriter.cpp:63-105 | as wired, foreign text reaches the host and quiet text the device exactly once, cut to 127 characters, with no other effect |
| Reinjection.NamedWiringConsumes | core/src/ProxyOutputWriter.cpp:40-48 | wired as the parameter names suggest, an OK for the host would remove a waiting AT+CGACT |
| Reinjection.SwwanIsQuiet | extensions/atsample/src/AtsampleAtCommandParser.cpp:404 | the forwarded activation is quiet for all numbers |
| NetconfState.Netconf.constructor | core/src/Netconf.cpp:40-49 | one undefined context, nothing pending |
| NetconfState.Netconf.DequeuePendingMessage | core/src/Netconf.cpp:85-99 | the newest entry is removed and returned; an empty stack returns none |
| NetconfState.Netconf.EnqueuePendingMessage | core/src/Netconf.cpp:101-108 | the entry goes on top; the warning is raised exactly when another is waiting |
| NetconfState.Netconf.UpdateDcContextFromDataCall | extensions/netconf/src/NetconfRilClient.cpp:334-396 | searching, adding and setting fields in place updates context values and event log as the keyed update says, with no object listed twice |
| NetconfState.Netconf.OnDataCallListChanged | extensions/netconf/src/NetconfRilClient.cpp:398-405 | the counted loop ends and applies the reports in order |
| SmmCores.SmmCore.WriteToHost | core/src/ProxyOutputWriter.cpp:63-83 | although the text is first offered to the command root, which may write again, the call ends and the only effect is one text to the host |
| SmmCores.SmmCore.WriteToDevice | core/src/ProxyOutputWriter.cpp:85-105 | likewise for the device and the response root |
| SmmCores.SmmCore.OnCommandData | core/src/CompositeMessageParser.cpp:73-95 | walking the children until one consumes gives the outcome and state of the reaction on values, re-injection included |
| SmmCores.SmmCore.DispatchCommand | core/src/MessageParser.cpp:52-69 | the loop finds the first registered command with the name in any case |
| SmmCores.SmmCore.ExecuteCommand | core/src/AtCommand.cpp:43-60 | every handler, run on the objects, has exactly the outcome and effect of its reaction on values |
| SmmCores.SmmCore.ExecuteCgdcontWrite | extensions/netconf/src/NetconfAtCommandParser.cpp:255-341 | load, three setters and store on the shared context, with every error path, amount to one definition and one result |
| SmmCores.SmmCore.ExecuteXgauthWrite | extensions/netconf/src/NetconfAtCommandParser.cpp:381-454 | load, cid check, three setters and store amount to one credential change and one result |
| SmmCores.SmmCore.ExecuteCgdcontQuery | extensions/netconf/src/NetconfAtCommandParser.cpp:226-253 | reloads context 0 and replies from it |
| SmmCores.SmmCore.ExecuteXgauthQuery | extensions/netconf/src/NetconfAtCommandParser.cpp:354-379 | reloads context 0 and replies from it |
| SmmCores.SmmCore.ExecuteCgactWrite | extensions/netconf/src/NetconfAtCommandParser.cpp:485-557 | request and pending entry together, or one immediate result and neither |
| SmmCores.SmmCore.SetupCall | extensions/netconf/src/NetconfRilClient.cpp:407-465 | a request with bearer, APN and type goes out exactly when the type is known and the interface accepts |
| SmmCores.SmmCore.ReleaseCall | extensions/netconf/src/NetconfRilClient.cpp:490-512 | a request with the low byte of the cid goes out exactly when the interface accepts |
| SmmCores.SmmCore.ExecuteScidQuery | extensions/atsample/src/AtsampleAtCommandParser.cpp:218-230 | one pending entry and one translated text to the device |
| SmmCores.SmmCore.ExecuteSwwanWrite | extensions/atsample/src/AtsampleAtCommandParser.cpp:386-406 | one forwarded activation to the device, or ERROR with fewer than two arguments |
| SmmCores.SmmCore.OnResponseData | core/src/CompositeMessageParser.cpp:73-95 | walking the children until one consumes gives the outcome and state of the reaction on values |
| SmmCores.SmmCore.ExecuteResponse | core/src/AtResponse.cpp:40-59 | every response message has exactly the outcome and effect of its reaction on values |
| SmmCores.SmmCore.FailPending | core/src/AtResponseParser.cpp:141-146 | the top entry, if any, is removed and the host gets one ERROR; otherwise not consumed |
| SmmCores.SmmCore.SucceedPending | extensions/atsample/src/AtsampleAtResponseParser.cpp:75-87 | the top entry is removed; AT+CGACT gives OK, AT^SCID gives the identifier when the message carries one and nothing otherwise |
| SmmCores.SmmCore.DataCallSetup | extensions/netconf/src/NetconfRilClient.cpp:467-488 | on success the report is applied first, then the top entry is answered |
| SmmCores.SmmCore.DataCallReleased | extensions/netconf/src/NetconfRilClient.cpp:514-533 | the top entry is answered and no context changes |
| SmmCores.SmmCore.RadioModeSet | extensions/netconf/src/NetconfRilClient.cpp:201-229 | once the radio is on, context 0 is loaded from the file; nothing else changes |
| SmmCores.SmmCore.ProcessHostCommand | core/src/smm_core.cpp:62-86 | longer than 256 is refused untouched; otherwise, for a line within token buffer and argument array, the effect is the reaction to the parsed text |
| SmmCores.SmmCore.ProcessModemResponse | core/src/smm_core.cpp:88-112 | longer than 256 is refused untouched; otherwise the effect is the reaction to the parsed response |
| SmmCores.SmmCore.constructor | core/src/smm_core.cpp:114-128 | the objects start in the initial state of the runs |
| SmmCores.SmmCore.Serve | core/src/smm_core.cpp:62-112 | each step of a run, taken on the objects, is the step on values, so the theorems about runs hold of the objects |

## Left out

- AtCommandParser.Tokenise: requires tokens to fit the 128-byte buffer, which the original does not check; what memory holds after more than 30 arguments is not modelled.
- SmmCores.SmmCore.OnCommandData: promises the reaction also for a reply that is offered to the root again and has more than 30 comma fields after a `=`, where the original writes past its array.
- AtResponseParser.RoundTrip: the first argument must not start with a space, since spaces after a colon are skipped.
- ContextRuns.LoadAfterRun: loads in the run are assumed to stay within their 128-byte variables and the range of int, which `sscanf` does not check.
- Persistence.LoadRecord: records of 512 characters and more, which the print cuts, are covered only by the store, not by the load.
- SerialHost.SerialRun: responses named ok or error in lower case, which would match by caseless comparison, do not count as unsolicited.
- SmmCores.SmmCore.DataCallSetup: a success with AT^SCID on top is excluded, because its handler reads through a null message there.
- SmmCores.SmmCore.DataCallListChanged: at most 255 reports, since the original loop does not end beyond that.
- Replies.ReplyEndsExactly: reports whose interface name or address holds a carriage return, and such a registration text, are excluded; a cut reply can then end with an OK of their own. Replies.ReplyIsWholeExactly has no such condition.
- RecordBounds.RecordsFitExactly: reports whose interface name has more than 127 characters or a `=` are excluded; such a name becomes an APN of that length.
- Number and address parsing (`strtoul`, `inet_pton`) and the text of the registration report are parameters of a step; numbers are unbounded integers.
- Format directives in outgoing text: writers take finished text.
- The range check of the AT+XGAUTH mode, which runs before the mode is read and never fails.
- Directory creation, `umask`, and partial writes: a store succeeds or fails as a whole.
- The uril library and the decoding of network states: requests are log entries, answers are steps, the access technology is any value; truncation of the APN inside a request is not modelled.
- Threads: each command, response and callback is one atomic step; the original takes no lock and sends its request before it enqueues.
- Routing commands behind tethering: establishing and terminating are logged events.
- Extension loading, registration, factories, singletons and memory ownership.
- The AT+XICFG command at start, and the requests around radio mode and initial attach; the load they make is a step.
