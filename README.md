# vscode-python-bridge, verified model

The extension opens a local WebSocket server inside the editor and answers
JSON commands from an external Python process: `showMessage`, `eval`,
`queryApi` (the own keys of a global) and `inspect` (walk a dotted path from
the global object and describe every member of what it reaches, with the
parameter names of functions). It also records in a discovery file,
`~/.vscode_instances.json`, which process listens on which port.

The model is split by the program's structure:

- `wrappers.dfy` (`Wrappers`): `Option` and `Result`.
- `text.dfy` (`Text`): the JavaScript string operations the source relies on,
  `split` with one separator character, `trim` with the ECMAScript
  whitespace set, `filter(arg => arg)`, and decimal property keys.
- `js_values.dfy` (`JsValues`): JavaScript values as a datatype, with
  `typeof`, property read `v[k]` (including throwing getters and reads from
  null and undefined), `Object.keys`, truthiness and the `toString` that
  `getFunctionParams` calls.
- `params.dfy` (`Params`): `getFunctionParams`. The non-greedy block comment
  regex is a left-to-right scan, the `^[\s\S]*?\(([^)]*)\)` match is "from the
  first `(` to the first `)` after it", and the list is split, trimmed and
  filtered.
- `inspector.dfy` (`Inspector`): the `inspect` branch. The two loops of the
  handler are the methods `Resolve` and `DescribeMembers`, proved against the
  functions `Walk` and `Members`.
- `registry.dfy` (`Registry`): the discovery file as a class whose state is
  missing, unreadable or a stored map, with `readInstances`,
  `writeInstances`, `updateInstance` and `removeInstance` as methods.
- `dispatcher.dfy` (`Dispatcher`): the whole message handler, from a parsed
  envelope to an optional notification and an optional reply, including the
  `catch` that turns exceptions into error replies.

Two behaviours of the handler are easy to misread, and the model keeps
them as the code has them:

- `showMessage` passes the command name, not the first argument, as the
  message. `Dispatcher.ShowMessageShowsCommandName` states this.
- `queryApi` on a falsy or missing global sends no reply at all.
  `Dispatcher.Dispatch` and `Dispatcher.QueryMissingGlobalNoReply` state
  this.

## Model

| member | source | states |
|---|---|---|
| Text.Split | src/extension.ts:66 | `split(',')` gives one more piece than there are separators; no piece contains the separator; joining the pieces with the separator gives the input back |
| Text.SplitJoin | src/extension.ts:66 | splitting the join of separator-free pieces gives those pieces back |
| Text.Trim | src/extension.ts:67 | the trimmed string neither starts nor ends with JavaScript whitespace and has only characters of the input |
| Text.TrimStart | src/extension.ts:67 | the result is a suffix of the input, everything dropped is whitespace, and it does not start with whitespace |
| Text.TrimEnd | src/extension.ts:67 | the result is a prefix of the input, everything dropped is whitespace, and it does not end with whitespace |
| Text.TrimSlice | src/extension.ts:67 | the trimmed string is a contiguous slice of the input with only whitespace before and after it |
| Text.TrimTrimmed | src/extension.ts:67 | trimming is the identity on a string without whitespace at its ends |
| Text.TrimAll | src/extension.ts:67 | `map(arg => arg.trim())` keeps the length and trims each element |
| Text.DropEmpty | src/extension.ts:68 | `filter(arg => arg)` gives a subsequence of the input, in order, that holds only non-empty strings and every non-empty string of the input at least once (the exact count is `Text.DropEmptyCount`) |
| Text.DropEmptyCount | src/extension.ts:68 | the filtered list is shorter than the input by exactly the number of empty strings in it |
| Text.DropEmptyAppend | src/extension.ts:68 | filtering distributes over concatenation |
| Text.DropEmptyNoEmpty | src/extension.ts:68 | nothing is dropped from a list without empty strings |
| Text.NatToString | src/extension.ts:39 | the decimal key of a number is canonical (no sign, no leading zero) |
| Text.ParseNat | src/extension.ts:117 | a key reads as an array index exactly when it is canonical decimal |
| Text.ParseNatToString | src/extension.ts:117 | reading back the decimal key of a number gives the number |
| Text.NatToStringParse | src/extension.ts:117 | a canonical decimal key is the decimal form of the number it reads as |
| Text.NatToStringInjective | src/extension.ts:39 | distinct numbers have distinct decimal keys |
| JsValues.TypeOf | src/extension.ts:138-143 | `typeof` is "undefined" only for undefined, "object" exactly for null and objects, "function" exactly for functions |
| JsValues.Get | src/extension.ts:117 | reading from null or undefined always throws, with the TypeError naming the key; booleans and numbers have no own properties; an error elsewhere comes only from a throwing getter |
| JsValues.OwnKeys | src/extension.ts:102 | `Object.keys` throws exactly for null and undefined, gives an object's or function's own keys in order, and a string's indices |
| JsValues.Truthy | src/extension.ts:97 | null and undefined are falsy; objects and functions are truthy; a string is truthy exactly when it is non-empty, that is, when it has an index key |
| JsValues.StringKeysReadBack | src/extension.ts:131-133 | every index key of a string reads back that string's character |
| JsValues.FunctionText | src/extension.ts:62 | `toString` throws exactly for null, gives a function's source, and "[object Object]" for an object |
| Params.FindCloser | src/extension.ts:62 | the first `*/` at or after a position, or none when there is none |
| Params.StripBlockComments | src/extension.ts:62 | comment removal never lengthens the text |
| Params.StripNoCloser | src/extension.ts:62 | text without `*/` is left unchanged: an unclosed `/*` stays as text |
| Params.StripNoOpener | src/extension.ts:62 | text without `/*` is left unchanged |
| Params.StripAppend | src/extension.ts:62 | text whose openers all close inside it is stripped independently of what follows, provided a `/` at its end does not meet a `*` at the start of what follows |
| Params.StripLeadingComment | src/extension.ts:62 | a leading closed comment disappears entirely |
| Params.StripInsertedComment | src/extension.ts:62 | a closed comment inserted after fully closed text disappears, and both sides are stripped on their own |
| Params.FindCloserAppend | src/extension.ts:62 | appending text does not move a closer already found |
| Params.ParamText | src/extension.ts:63-64 | the match exists exactly when some `(` has a `)` after it; the captured text contains no `)` and only characters of the input |
| Params.ParamTextAt | src/extension.ts:63 | the capture is the text between the first `(` and the first `)` after it |
| Params.ParamTextAppend | src/extension.ts:63 | once matched, appending text does not change the capture |
| Params.SplitParams | src/extension.ts:66-68 | at most one name more than there are commas; every name is non-empty and trimmed; for a list without `)`, which every capture is, every name is also free of `,` and `)`; the names are a subsequence of the trimmed pieces |
| Params.SplitParamsPadded | src/extension.ts:66-68 | for any comma-free pieces, the names of their comma-joined list are exactly the trimmed pieces, in order, without the empty ones |
| Params.SplitParamsList | src/extension.ts:66-68 | splitting a written list of well-formed names gives the names back |
| Params.ParamsFromSource | src/extension.ts:62-68 | `[]` when the stripped text has no `(`...`)` pair; at most one name more than the captured list has commas; every name well-formed |
| Params.ParamsOfSignature | src/extension.ts:61-69 | for a comment-free signature `head(a,b,...)` whose head has no `(` and whose names are non-empty, trimmed and free of `,` and `)`, the names are its parameters, whatever body follows |
| Params.SignatureText | src/extension.ts:62-63 | the capture of a comment-free signature `head(list)` followed by any body, whose head has no `(` and whose list has no `)`, is `list` |
| Params.ParamsOfPaddedSignature | src/extension.ts:61-69 | for a comment-free signature `head(p1,...,pk)` followed by any body, whose head has no `(` and whose pieces are free of `,` and `)`, the result is the pieces trimmed, in order, without the empty ones |
| Params.ParamsOfSpacedSignature | src/extension.ts:61-69 | a comment-free signature `head(a, b, c)`, with blanks after the commas, whose head has no `(` and whose names are non-empty, trimmed and free of `,` and `)`, gives exactly its names, whatever body follows |
| Params.Spaced | src/extension.ts:66-68 | the pieces of a list written with a blank after every comma: the first name as it is, then each further name after a blank |
| Params.TrimBlankThenWord | src/extension.ts:67 | one blank before a word is trimmed away |
| Params.ParamsIgnoreComment | src/extension.ts:62 | a closed comment inserted after fully closed text, not forming `/*` with its neighbours, does not change the result |
| Params.CommentCanSplitOpener | src/extension.ts:62 | a comment inserted between `/` and `*` turns a comment into code and exposes a parameter |
| Params.StripSplitOpener | src/extension.ts:62 | the inserted comment is removed and leaves the split opener behind |
| Params.OpenerHidesParams | src/extension.ts:62-64 | a parenthesised list inside a comment gives no parameters |
| Params.CommentCanCloseOpener | src/extension.ts:62 | a comment inserted after an unclosed `/*` closes it and hides the list |
| Params.UnclosedOpenerKeepsParams | src/extension.ts:62-64 | an unclosed `/*` is not removed and the list after it is read |
| Params.GetFunctionParams | src/extension.ts:61-69 | throws the TypeError exactly for null; an object gives `[]`; a function gives the names of its source |
| Params.ObjectStringHasNoParams | src/extension.ts:63-64 | "[object Object]" has no parameter list |
| Inspector.PathArg | src/extension.ts:111-114 | the path is `args[0]`, and it is "" exactly when there is no argument or the argument is "" |
| Inspector.Segments | src/extension.ts:115-116 | the segments used are non-empty and contain no dot |
| Inspector.SplitAround | src/extension.ts:115 | splitting around one separator is splitting the two sides |
| Inspector.SegmentsAroundDot | src/extension.ts:115-116 | the segments of `a.b` are those of `a` followed by those of `b` |
| Inspector.EmptySegmentsSkipped | src/extension.ts:115-116 | the empty path has no segments; leading, trailing and doubled dots are ignored |
| Inspector.Walk | src/extension.ts:115-129 | the walk over no segments ends at the value itself; a missing segment is one of the path's segments; an exception needs at least one read |
| Inspector.WalkAppend | src/extension.ts:115-129 | walking a longer path continues from where the shorter walk stopped |
| Inspector.WalkStopsAtUndefined | src/extension.ts:117-127 | the walk stops at the first segment whose value is undefined and names it |
| Inspector.WalkFoundDefined | src/extension.ts:117-118 | every value reached on a successful walk is defined, and the walk resumes from it |
| Inspector.WalkNonEmptyDefined | src/extension.ts:117-118 | a successful walk over at least one segment never ends at undefined |
| Inspector.NotFoundMessage | src/extension.ts:119 | the message quotes the segment and the whole path, in that order |
| Inspector.ReadOrUndefined | src/extension.ts:132-135 | the member is undefined exactly when the read throws or gives undefined, and otherwise is the value read |
| Inspector.MemberOf | src/extension.ts:131-144 | a member's entry has its key as name and `typeof` of its value as type, `params` exactly for objects and functions; it fails exactly for null with the `toString` TypeError |
| Inspector.MemberOfParams | src/extension.ts:140-144 | an object member gets `[]`, a function member the names of its source |
| Inspector.Members | src/extension.ts:130-145 | no keys give the empty dictionary; a failure is always the `toString` TypeError |
| Inspector.MembersSpec | src/extension.ts:130-145 | the dictionary fails exactly when some key reads null; its keys are the object's own keys, each entry as `MemberOf` describes it |
| Inspector.MembersStep | src/extension.ts:130-145 | one more key adds its entry to the dictionary |
| Inspector.MembersPrefixFailure | src/extension.ts:130-145 | once a key fails, the rest of the keys do not matter |
| Inspector.WalkPiecesStep | src/extension.ts:115-118 | one more piece of `split(".")` extends the walk by that segment, or not at all when empty |
| Inspector.WalkPiecesStop | src/extension.ts:117-127 | once the walk has stopped, later pieces do not matter |
| Inspector.InspectSpec | src/extension.ts:109-151 | a missing segment gives the not-found message for that segment and the path; an exception during the walk is the error; success needs a resolved path; a path resolving to null gives the `Object.keys` TypeError |
| Inspector.Resolve | src/extension.ts:115-129 | the first loop computes the walk over the non-empty segments of the path |
| Inspector.DescribeMember | src/extension.ts:131-144 | the body of the second loop computes the entry `MemberOf` specifies, swallowing a throwing read |
| Inspector.DescribeMembers | src/extension.ts:130-145 | the second loop computes the members dictionary, or the error of the first null member |
| Inspector.Inspect | src/extension.ts:109-151 | the whole `inspect` branch computes the specified result |
| Inspector.InspectNotFound | src/extension.ts:117-127 | the first undefined segment gives the "'k' not found in 'name'." error |
| Inspector.InspectThrownRead | src/extension.ts:117 | a read that throws part-way along the path, from null, undefined or a throwing getter, makes its error the result, whatever segments follow |
| Inspector.InspectFound | src/extension.ts:130-150 | after a walk that ends at a value other than null, the reply succeeds exactly when no member is null, and then has one entry per own key, each as `MemberOf` describes it; otherwise it is the `toString` TypeError |
| Inspector.InspectNullMember | src/extension.ts:139-141 | one null member makes the whole request fail with the `toString` TypeError |
| Inspector.InspectEmptyPath | src/extension.ts:111-115 | the path "" and no path at all both inspect the root |
| Inspector.InspectExample | src/extension.ts:109-151 | inspecting `{a: 1, b: function(x,y){}}` describes `a` as a number and `b` as a function of x and y, with `type` strings "number" and "function" |
| Inspector.ExampleParams | src/extension.ts:61-69 | the parameters of `function(x,y){}` are x and y |
| Registry.Key | src/extension.ts:39 | the key of a process reads back as its process id |
| Registry.KeyInjective | src/extension.ts:39 | distinct processes have distinct keys in the file |
| Registry.Loaded | src/extension.ts:14-24 | reading gives `{}` when the file is missing or unreadable, and the stored map otherwise |
| Registry.AfterUpdate | src/extension.ts:36-48 | after a successful write the file holds the old keys plus the own key, the own key maps to the own descriptor and every other entry is unchanged; a write refused before opening leaves the file as it was; one that fails after the truncation leaves nothing a read can find |
| Registry.AfterRemove | src/extension.ts:51-58 | when the own key was present, a successful write leaves the old keys minus the own key and a write failing after the truncation leaves nothing readable; when it was absent, or the write is refused, the file is unchanged; no entry is ever altered |
| Registry.OwnDescriptor | src/extension.ts:39-45 | the entry has the process id, host "localhost", the port, and the workspace path or "[no_project]" |
| Registry.InstanceFile.constructor | src/extension.ts:9-10 | the store starts in the given state |
| Registry.InstanceFile.ReadInstances | src/extension.ts:14-24 | the stored map, or `{}` when the file is missing or fails to parse |
| Registry.InstanceFile.WriteInstances | src/extension.ts:27-33 | the file holds the data after a successful write, is left as it was when the open is refused, and reads as `{}` when the write fails after truncating it |
| Registry.InstanceFile.UpdateInstance | src/extension.ts:36-48 | the new file is `AfterUpdate` of the old; after a successful write the own key maps to the own descriptor; unless a write truncated the file, every other key keeps its value |
| Registry.InstanceFile.RemoveInstance | src/extension.ts:51-58 | the new file is `AfterRemove` of the old; unless the write is refused, the own key is gone; unless a write truncated the file, every other key keeps its value; nothing is written when the key was absent |
| Registry.InstanceFile.StartThenStop | src/extension.ts:172-180 | activation then deactivation leaves exactly the other entries as they were when the writes succeed, the file unchanged when they are refused, and no entries at all when a write truncates the file |
| Registry.StartStopForgetsOnlySelf | src/extension.ts:36-58 | update then remove of the same process gives the original map without that key when the writes succeed, the original file when they are refused, and `{}` when a write truncates the file |
| Registry.RemoveIdempotent | src/extension.ts:51-58 | removing twice is removing once, whatever the write outcome |
| Registry.OtherProcessUntouched | src/extension.ts:36-58 | another process's entry survives both update and remove unchanged, unless a write fails after truncating the file |
| Registry.AfterWrite | src/extension.ts:27-33 | a successful write stores the data, a refused one leaves the file as it was, and one failing after the truncation leaves a file that reads as `{}` |
| Registry.TruncatedWriteLosesOthers | src/extension.ts:20-33 | a write that fails after truncating the file loses another process's entry: the next read does not find it |
| Registry.UpdateRegisters | src/extension.ts:36-48 | after a successful update the next read finds this process, on localhost, at the port |
| Dispatcher.Reply.Status | src/extension.ts:84-159 | the status is "ERROR" exactly for error replies |
| Dispatcher.QueryName | src/extension.ts:95-96 | the global's name is `args[0]`, or "undefined" when there is no argument |
| Dispatcher.Query | src/extension.ts:94-108 | no reply exactly when the global reads as falsy; a read that throws gives an error reply with its text, and only such a read does; a success reply lists `Object.keys` of the global |
| Dispatcher.InspectReply | src/extension.ts:109-151 | the `inspect` reply is an error exactly when the inspection fails, carrying its message; otherwise it carries the inspected dictionary |
| Dispatcher.Dispatch | src/extension.ts:79-167 | a notification exactly for `showMessage`; no reply exactly for a `queryApi` miss; a malformed message gets its parse error |
| Dispatcher.Handle | src/extension.ts:79-167 | the handler running the `inspect` loops computes the specified outcome |
| Dispatcher.UnknownCommandReply | src/extension.ts:152-159 | any other command gets "Unknown command" and nothing else, whatever the arguments, globals or evaluation |
| Dispatcher.ShowMessageShowsCommandName | src/extension.ts:81-86 | the notification's message is "showMessage", with the arguments as items, and the reply is OK |
| Dispatcher.QueryMissingGlobalNoReply | src/extension.ts:94-100 | a global missing from the root gets no reply |
| Dispatcher.QueryObjectKeys | src/extension.ts:101-107 | an object or function global is answered with its own keys |
| Dispatcher.QueryStringIndices | src/extension.ts:97-108 | a non-empty string global is answered with its indices "0", "1", ..., each reading back one character |
| Dispatcher.QueryPrimitiveNoKeys | src/extension.ts:97-108 | a truthy boolean or number global is answered with no keys |
| Dispatcher.ExceptionsBecomeErrors | src/extension.ts:160-167 | an exception from `eval` or from reading the global becomes an error reply with its text; a value from `eval` is returned |
| Dispatcher.InspectNotFoundReply | src/extension.ts:117-127 | the first undefined segment is reported as not found |
| Dispatcher.InspectNullIntermediate | src/extension.ts:117 | a null value part-way along the path makes the reply the TypeError of reading the next segment from null |
| Dispatcher.InspectThrowingGetter | src/extension.ts:117 | a getter that throws on the path makes its error the reply |
| Dispatcher.InspectResolvesToNull | src/extension.ts:131 | a path that resolves to null makes the reply the `Object.keys` TypeError |
| Dispatcher.InspectNullMemberReply | src/extension.ts:139-141 | a null member turns `inspect` into the `toString` TypeError reply |
| Dispatcher.InspectOkReply | src/extension.ts:130-150 | a successful `inspect` reply has one entry per own key, as `MemberOf` describes it |

## Left out

- WebSocket server, connections and `ws.send`: replies are returned values, not sent.
- `JSON.parse` of the message: the envelope arrives already parsed, or as the text of its error. Non-string commands and arguments, and a missing `args`, are not modelled.
- `JSON.stringify` of replies: a function or `undefined` result of `eval` is dropped by JSON serialisation, and key order in the output is not modelled.
- `eval`: its value or its exception is a parameter of `Dispatcher.Dispatch`.
- `vscode.window.showInformationMessage` is returned as a `Notice`; `vscode.workspace.rootPath` is a parameter.
- `globalThis` and the `vscode` injection: the root object is a parameter.
- Real `fs`, `os.homedir` and `path.join`: the file is missing, unreadable or a stored map, and a write succeeds, is refused before the file is opened, or fails after `writeFileSync` has truncated the file (an empty file, or a proper prefix of the JSON object written, fails to parse). A file holding JSON that is not an object, or entries that are not descriptors, is not modelled.
- Console logging and the unused `child_process` import.
- Properties inherited from prototypes, including the `__proto__` setter: an own key named `__proto__` gets no entry in the reply's `members` object at line 136, while `Inspector.InspectFound` gives it one. Symbols, getters other than ones that throw, floating-point numbers, NaN and -0 are not modelled either.
- Real `Function.prototype.toString`: a function carries its source text.
- JsValues.FunctionText: an object's text is always "[object Object]"; an own `toString` property of the object, and the element list that arrays inherit, are not modelled.
- JsValues.OwnKeys: string indices count Dafny characters, while JavaScript counts UTF-16 code units, so a string holding a character outside the Basic Multilingual Plane has fewer keys, and `str[k]` other characters, than in JavaScript.
- Dispatcher.Dispatch: `JSON.stringify` of an `eval` result can throw (a BigInt, an enumerable getter that throws), which the `catch` turns into an ERROR reply; the model always answers `EvalOk` with the value.
- `JsValues.Props` does not require its key list to be free of repeats or to name only existing slots, which `Object.keys` always guarantees; the lemmas hold for every `Props`, including those that cannot arise.
- Concurrency between connections, and the last-writer-wins behaviour of the discovery file.
- Params.ParamsIgnoreComment: weaker than "inserting a closed comment never changes the result", which is false for the regex. `Params.CommentCanSplitOpener` and `Params.CommentCanCloseOpener` give inputs where an inserted comment changes the result, so the lemma requires the text before the comment to close its own comments and forbids a `/` `*` pair across the insertion.
