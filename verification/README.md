# Verification of the WFS plugin core

A Dafny model of the parts of the SmartMet WFS plugin whose behaviour is hardest to see from one
function: the compiler of ad hoc filters, the bit stream behind feature identifiers and cache keys,
the registry of stored queries, the admission and redirection of stored query requests, and the
generators of URLs and response texts. `dafny verify dfyconfig.toml` checks everything.

**Ad hoc filters.** `Filters` says what an element of a filter reads and what the queries of a whole
filter are; `FilterMeaning` gives the disjunctive normal form and the truth of a filter; `FilterDnf`
proves that the two agree. `FilterRuns` describes one round of the loop over child elements, and
`AdHocQueries` is the program itself: query objects on the heap, a list that is appended to and
erased from, raw indexes and a reference to the query of the enclosing `fes:And`. `FilterAcceptance`
says which `fes:Or` sets can be combined at all, `FilterRules` which filters are accepted. `Conditions` is the text of a filter expression.

**Bit stream and identifiers.** `OutputStream` and `InputStream` are the two classes over bytes,
`Codec` the bit strings they write and read, `CodecRoundTrip` the inverses, `CodecFormat` the format bit by bit,
`Base64` the text form, `FeatureIds` and `CacheKeys` the identifiers.

**Registry.** `RegistrySpec` treats the registry as a state machine over file events; `RegistryRuns`
says when no file is lost over a run, `RegistryMatches` when handlers match their files,
`RegistryEffects` what each edit of a file does and when a reload is asked for; `StoredQueryMaps` is the class that takes the steps.

**Requests.** `Admission` makes declared conflicts symmetric, `ParamExtraction` reads a request in one
pass, `ParamRules` compares the pass with the rule a configuration states, `RequestParameterMaps` holds
what was read, `Redirects` finds the handler that answers.

**Texts.** `UrlEncoding`, `UrlTemplates` and `UrlReading` are the query string and its reader,
`Substitution` the markers of a response.

Exceptions are `None` or a false result. A digest function, the reading of parameter values, the
handlers and the values of named parameters are function parameters, so that every result holds
whatever they are.

Some results say where the program does not do what one would expect:

- Where the server does not distinguish letter case, a request in lower case is accepted exactly when
  the rule of the configuration accepts it and no mandatory parameter is configured with capital letters
  (`ParamRules.AcceptedByRule`); a request with capital letters is compared and counted as it is spelled
  (`ParamRules.CaseMatters`).
- Where the server does distinguish it, the pass follows the rule, in every order of the parameters,
  exactly when conflicts are mutual (`ParamRules.PermittedExactly`, `ParamRules.UnorderedExactly`), as
  they are when only names in lower case declare them (`ParamRules.LowerIsMutual`). Two optional
  parameters `b` and `zB`, of which `zB` declares the conflict, pass the check, and a request with both
  is accepted when it is sorted and refused in the other order (`ParamRules.CapitalPairAccepted`).
- Every conflict is known to both sides exactly when only names in lower case declare conflicts
  (`Admission.KnownExactly`). A forbidden parameter without a description, whose report C++ leaves
  undefined, can be met exactly when the server distinguishes letter case and a parameter that declares
  a conflict has a name whose lower case is no parameter (`ParamRules.ReportsKnown`).
- Cache keys tell requests apart exactly when no parameter may be called "debugFormat" or
  "cacheKeyQualifier" (`CacheKeys.SoundNames`).
- A background add loses a file exactly when it replaces the handler of another one that is up to date
  and neither a duplicate nor waiting itself (`RegistryRuns.RunAccountedExactly`); two files of one id,
  loaded at the start, are such a case (`RegistryRuns.BackgroundLoses`).
- Trying duplicates again does nothing exactly when none of their files has changed
  (`RegistryMatches.RetryDoesNothing`), so that a file can stay a duplicate of nothing
  (`RegistryMatches.RetryMissesDuplicate`).
- The separator of a query string is right in exactly three cases of the evaluated address
  (`UrlReading.SeparatorFits`). It is wrong for an address that is left out or ends with a second '?'
  (`UrlReading.OwnSeparator`), and for an address that is a reference to one with fields
  (`UrlReading.ReferencedAddress`). A comma behind a NUL passes the check of list items
  (`UrlReading.CommaBehindNul`).

## Model

| member | source | states |
|---|---|---|
| AdHocQueries.FilterCompiler.ExtractXmlParameters | libwfs/AdHocQuery.cpp:531-554 | A filter of the fragment is accepted exactly when the rule of FilterRules holds of its tree; then the list left on the heap is its disjunctive normal form as multisets of atoms, has no empty query, and some query in it is true in exactly the worlds where the filter holds |
| AdHocQueries.FilterCompiler.ExtractFilterElements | libwfs/AdHocQuery.cpp:758-913 | The loop over child elements runs the step function to its end, leaves the element stack as it was and the queries in front of its own untouched |
| AdHocQueries.FilterCompiler.ExtractElement | libwfs/AdHocQuery.cpp:777-903 | One round of that loop is one step; the index list and the list of queries stay in accord with each other |
| AdHocQueries.FilterCompiler.ExtractConjuncts | libwfs/AdHocQuery.cpp:841-878 | Once the children of fes:And are read, the query at the remembered index is still the query of fes:And and holds its own parameters, the queries behind it are its fes:Or sets in document order, and the index list is where each set starts |
| AdHocQueries.FilterCompiler.ExtractAnd | libwfs/AdHocQuery.cpp:841-895 | Reading a fes:And leaves its queries behind those that were there, and an empty index list |
| AdHocQueries.FilterCompiler.PrepareQuery | libwfs/AdHocQuery.cpp:790-838 | Exactly when a new query is created and when its index is noted |
| AdHocQueries.FilterCompiler.ReadFilterParameter | libwfs/AdHocQuery.cpp:915-937 | Outside fes:Or the query of the enclosing fes:And takes the parameter, and no other query changes |
| AdHocQueries.FilterCompiler.ReadQueryParameter | libwfs/AdHocQuery.cpp:1206-1294 | A parameter adds its values, or is refused because of a conflict, its number of occurrences or its limits |
| FilterRules.CompileExactly | libwfs/AdHocQuery.cpp:758-1063 | A filter is accepted exactly when no fes:Not occurs, in every scope each parameter is within its limits, none occurs too often and none is forbidden by an earlier one, several fes:Or elements below a fes:And neither repeat a parameter in a branch nor, the last one apart, share one, and next to any of them the own parameters have one value each |
| FilterRules.ReadAllExactly | libwfs/AdHocQuery.cpp:1234-1287 | The same of the leaves read by one call: limits, occurrences and conflicts decide, and nothing else |
| FilterRules.ReadGains | libwfs/AdHocQuery.cpp:1275-1287 | Reading a leaf adds the values of every parameter in document order and the conditions in document order, and nothing else |
| FilterRules.PeriodNames | libwfs/AdHocQuery.cpp:1183-1203 | The instants of the time period of fes:During are starttime and endtime, and only they are renamed |
| AdHocQueries.FilterCompiler.CombineOrQueries | libwfs/AdHocQuery.cpp:939-1014 | Two or more adjacent fes:Or sets become their Cartesian product, and every query in front of them stays |
| AdHocQueries.FilterCompiler.HandleEndOfAndElement | libwfs/AdHocQuery.cpp:1016-1063 | The queries of fes:And are what its own parameters and its fes:Or sets make together; its own query stays only when nothing else is left; the index list is empty again |
| AdHocQueries.Query.CopyParams | libwfs/AdHocQuery.cpp:1296-1341 | Succeeds exactly when no source parameter has two values, and then merges parameters and conditions |
| AdHocQueries.Query.IsUsed | libwfs/AdHocQuery.cpp:1363-1374 | A query is used exactly when it has a parameter or a condition |
| AdHocQueries.Query.AddComparison | libwfs/AdHocQuery.cpp:1160-1172 | The text surgery appends one condition to the list the filter expression stands for |
| FilterDnf.CompileIsDnf | libwfs/AdHocQuery.cpp:758-1063 | The compiled queries of a filter are exactly its recursive disjunctive normal form |
| FilterDnf.CompileKeepsMeaning | libwfs/AdHocQuery.cpp:758-1063 | Some compiled query is true in a world exactly when the filter is |
| FilterMeaning.DnfMeaning | libwfs/AdHocQuery.cpp:796-895 | The normal form has the truth of the fes:And and fes:Or tree |
| FilterDnf.CrossCommutes | libwfs/AdHocQuery.cpp:939-1014 | The order in which fes:Or sets are combined does not change the set of combinations |
| FilterRuns.RunConjuncts | libwfs/AdHocQuery.cpp:796-895 | Reading the children of fes:And gathers its own parameters in one query and its fes:Or sets behind it in document order, with an index for the start of each set |
| FilterRuns.CompileUsed | libwfs/AdHocQuery.cpp:1363-1374 | Every compiled query holds something, and there is one at least |
| FilterAcceptance.CombinableExactly | libwfs/StoredQuery.cpp:263-290 | fes:Or sets are combined without an exception exactly when no branch repeats a parameter and no two sets but the last share one |
| FilterAcceptance.ProductCount | libwfs/AdHocQuery.cpp:939-1014 | Combining fes:Or sets makes one query for every choice of one query from each set |
| Conditions.AddConditionAppends | libwfs/AdHocQuery.cpp:1160-1172 | Adding a condition to the text of a list of conditions gives the text of the longer list, brackets in conditions included |
| Conditions.Rendered | libwfs/AdHocQuery.cpp:1160-1172 | The expressions of no, one and two conditions, letter by letter |
| Conditions.MergeExpressionConcatenates | libwfs/AdHocQuery.cpp:1310-1334 | Merging the texts of two lists gives the text of the one list behind the other |
| OutputStream.OBStream.PutBit | libwfs/BStream.cpp:80-110 | The buffer holds one bit more, most significant bit first, over any growth; unwritten bits are zero and the index stays inside the buffer |
| OutputStream.OBStream.Grow | libwfs/BStream.cpp:88-94 | A block of zeros is added behind the old bytes |
| OutputStream.OBStream.RawData | libwfs/BStream.cpp:55-66 | The bytes are the packed bits, max(1, ceil(n / 8)) of them |
| OutputStream.OBStream.PutBits | libwfs/BStream.cpp:112-127 | Writes the low bits of a number, the highest first |
| OutputStream.OBStream.PutUnsigned | libwfs/BStream.cpp:142-160 | Writes the groups of five bits, the lowest first, each behind a set bit |
| OutputStream.OBStream.PutInt | libwfs/BStream.cpp:129-140 | Writes sign and magnitude |
| OutputStream.OBStream.PutDouble | libwfs/BStream.cpp:162-184 | Writes the number of leading zero bytes and the other bytes |
| OutputStream.OBStream.PutString | libwfs/BStream.cpp:207-221 | Writes the length and every character, short or escaped |
| OutputStream.OBStream.PutTime | libwfs/BStream.cpp:223-262 | Writes special and ordinary times by whole seconds |
| OutputStream.OBStream.PutValue | libwfs/BStream.cpp:264-334 | Writes a type code and the value, and fails exactly for unsupported types |
| OutputStream.OBStream.PutValueMap | libwfs/BStream.cpp:336-364 | Writes the multimap grouped by key, and fails exactly when some value is unsupported |
| InputStream.IBStream.GetBit | libwfs/BStream.cpp:381-406 | Takes the first unread bit, and fails exactly when there is none |
| InputStream.IBStream.GetBits | libwfs/BStream.cpp:408-429 | Takes the number whose bits come next |
| InputStream.IBStream.GetUnsigned | libwfs/BStream.cpp:431-449 | Reads groups of five bits until a clear bit |
| InputStream.IBStream.GetInt | libwfs/BStream.cpp:451-463 | Reads sign and magnitude |
| InputStream.IBStream.GetDouble | libwfs/BStream.cpp:465-484 | Reads the eight bytes back, leading zero bytes included |
| InputStream.IBStream.GetString | libwfs/BStream.cpp:504-518 | Reads a length and as many characters |
| InputStream.IBStream.GetTime | libwfs/BStream.cpp:520-557 | Reads special and ordinary times |
| InputStream.IBStream.GetValue | libwfs/BStream.cpp:559-621 | Reads a type code and a value, and fails on an unknown code |
| InputStream.IBStream.GetValueMap | libwfs/BStream.cpp:623-644 | Reads keys and their values until a clear bit |
| CodecRoundTrip.MapRoundTrip | libwfs/BStream.cpp:336-364 | Reading what was written gives the same multimap in the same order, times by whole seconds, and stops at exactly the bit where writing stopped, whatever follows |
| CodecRoundTrip.ValueRoundTrip | libwfs/BStream.cpp:264-334 | The same for one value of any supported type |
| CodecRoundTrip.UnsignedRoundTrip | libwfs/BStream.cpp:431-449 | The same for every 64-bit number: no bit is lost in the shifts |
| CodecRoundTrip.UnsignedLength | libwfs/BStream.cpp:142-160 | A number of k digits to base 32 takes 6k + 1 bits, and k is at most 13 |
| CodecRoundTrip.UnsignedPrefixFree | libwfs/BStream.cpp:142-160 | No written number begins another one |
| CodecRoundTrip.DoubleRoundTrip | libwfs/BStream.cpp:465-484 | Any eight bytes come back |
| CodecRoundTrip.StringRoundTrip | libwfs/BStream.cpp:504-518 | Any text shorter than 2^32 comes back |
| CodecRoundTrip.TimeRoundTrip | libwfs/BStream.cpp:520-557 | Any time comes back by whole seconds |
| CodecFormat.UnsignedDigits | libwfs/BStream.cpp:142-160 | The digits of a number to base 32 stand in it from the lowest one up, each behind a set bit, and a clear bit ends them |
| CodecFormat.SignedExample | libwfs/BStream.cpp:129-140 | The bits of -37 and of 0 |
| CodecFormat.CharFormat | libwfs/BStream.cpp:186-205 | A character up to 126 takes seven bits, a greater one eight bits behind seven set ones |
| CodecFormat.DoubleFormat | libwfs/BStream.cpp:162-184 | Three bits count the leading zero bytes of a double, up to seven, and the other bytes follow |
| CodecFormat.TimeFormat | libwfs/BStream.cpp:223-262 | The bits of special and of ordinary times |
| CodecFormat.TypeFirst | libwfs/BStream.cpp:28-38 | The first four bits of a value are the number of its type |
| CodecFormat.UnknownType | libwfs/BStream.cpp:559-621 | A value of another type number is refused |
| CodecFormat.OneEntry | libwfs/BStream.cpp:336-364 | The bits of an empty multimap and of one with a single entry |
| Packing.UnpackOfPack | libwfs/BStream.cpp:80-110 | Packed bits come back in front of zero bits up to the end of the last byte: less than a byte of them, or a whole byte when there are no bits |
| Base64.RoundTrip | libwfs/FeatureID.cpp:162-186 | Base 64 decoding undoes encoding |
| Base64.AlphabetBijection | libwfs/FeatureID.cpp:165-186 | The swap of three characters maps the Base 64 alphabet one to one onto letters, digits, '.', '_' and '-' |
| FeatureIds.FeatureID.GetId | libwfs/FeatureID.cpp:140-190 | The identifier is the prefix and the swapped Base 64 text of digest and stream; fails exactly for unsupported values |
| FeatureIds.FeatureID.CreateFromId | libwfs/FeatureID.cpp:34-138 | Accepts exactly the identifiers that are "WFS-" and swapped text for the right digest and at least one byte whose bits begin with the tag and the revision and have the fields behind them; keeps these but the sequence number |
| FeatureIds.ParseExactly | libwfs/FeatureID.cpp:38-126 | For every text and all fields: it is read as these fields exactly when it is such an identifier for them |
| FeatureIds.WrongDigest | libwfs/FeatureID.cpp:73-90 | Whatever the bytes are, an identifier of them under any other digest is refused |
| FeatureIds.WrongTag | libwfs/FeatureID.cpp:94-101 | Bytes that begin with another tag are refused under their right digest |
| FeatureIds.WrongRevision | libwfs/FeatureID.cpp:103-110 | So are bytes with another revision |
| FeatureIds.FeatureID.AddParam | libwfs/FeatureID.h:50-53 | The values of the name get one more at their end, no other name is affected, and the map stays in key order |
| FeatureIds.FeatureID.EraseParam | libwfs/FeatureID.cpp:192-202 | The name has no values left, every other name has those it had, and the map stays in key order |
| FeatureIds.IdRoundTrip | libwfs/FeatureID.cpp:34-190 | Reading an identifier back restores query id, sequence number and all parameters |
| FeatureIds.IdInjective | libwfs/FeatureID.cpp:140-190 | Two identifiers are equal exactly when query id, sequence number and parameters, times by whole seconds, are |
| FeatureIds.IdAlphabet | libwfs/FeatureID.cpp:165-186 | Identifiers consist of letters, digits, '.', '_' and '-' |
| CacheKeys.CacheKeySound | libwfs/StoredQuery.cpp:106-117 | Two requests share a cache key exactly when query id, parameters, data source, language, debug flag and qualifier are the same, parameters called "source" or "language" included, provided that none is called "debugFormat" or "cacheKeyQualifier" |
| CacheKeys.SoundNames | libwfs/StoredQuery.cpp:106-117 | For every set of parameter names, cache keys tell all requests that use only these names apart exactly when neither "debugFormat" nor "cacheKeyQualifier" is among them |
| CacheKeys.ReservedNameCollides | libwfs/StoredQuery.cpp:109-110 | A parameter called "debugFormat" with value 1 has the key of the debug flag |
| CacheKeys.ReservedQualifierCollides | libwfs/StoredQuery.cpp:113-116 | A parameter called "cacheKeyQualifier" has the key of a qualifier of that value |
| CacheKeys.KeyValues | libwfs/StoredQuery.cpp:185-196 | Behind the values of each parameter name the key holds exactly what was added under that name |
| CacheKeys.MakeCacheKey | libwfs/StoredQuery.cpp:185-196 | There is a key exactly when every parameter value has a supported type, and it is the identifier of query id, parameters and additions |
| RequestParameterMaps.RequestParameterMap.InsertValue | libwfs/RequestParameterMap.cpp:72-86 | One value more behind the values of its key, nothing else changes, and every key belongs to its real name |
| RequestParameterMaps.RequestParameterMap.GetValues | libwfs/RequestParameterMap.cpp:117-136 | The values of a name in the order of insertion |
| RequestParameterMaps.RequestParameterMap.GetMap | libwfs/RequestParameterMap.cpp:25-34 | The values under their real names or their keys, in key order |
| RequestParameterMaps.PlainByRealName | libwfs/RequestParameterMap.cpp:25-34 | Each real name has exactly the values given under it |
| RequestParameterMaps.PlainByKey | libwfs/RequestParameterMap.cpp:25-34 | Each key has its values in the order of insertion |
| StoredQueryMaps.StoredQueryMap.CheckFileHash | libwfs/FileContentChecker.cpp:18-62 | True exactly for a readable file of allowed size whose digest has changed, and then the digest is remembered |
| StoredQueryMaps.StoredQueryMap.RemoveFileHash | libwfs/FileContentChecker.cpp:64-67 | The next check finds the file changed, whatever it holds, and every other file as before |
| StoredQueryMaps.StoredQueryMap.AddHandler | libwfs/StoredQueryMap.cpp:147-168 | A handler is found under its lower-case id from now on |
| StoredQueryMaps.StoredQueryMap.GetHandlerByName | libwfs/StoredQueryMap.cpp:170-191 | While keys match, only a handler with the requested id, letter case aside, is returned |
| StoredQueryMaps.StoredQueryMap.GetHandlerByFileName | libwfs/StoredQueryMap.cpp:422-439 | The first handler made from the file |
| StoredQueryMaps.StoredQueryMap.EnqueueQueryAdd | libwfs/StoredQueryMap.cpp:676-686 | The handler is added at once, or a task waits for a worker thread during a first update in the background |
| StoredQueryMaps.StoredQueryMap.HandleQueryAdd | libwfs/StoredQueryMap.cpp:508-546 | The new state is that of the add event; fails exactly when the file is read again and cannot be parsed |
| StoredQueryMaps.StoredQueryMap.HandleQueryModify | libwfs/StoredQueryMap.cpp:548-602 | The new state is that of the modify event; fails exactly when the file is read again and cannot be parsed |
| StoredQueryMaps.StoredQueryMap.HandleQueryIgnore | libwfs/StoredQueryMap.cpp:604-643 | A disabled query loses its handler when the same file made it, and else asks for a reload |
| StoredQueryMaps.StoredQueryMap.HandleQueryRemove | libwfs/StoredQueryMap.cpp:455-472 | The new state is that of the delete event |
| StoredQueryMaps.StoredQueryMap.HandleConfigFileChange | libwfs/StoredQueryMap.cpp:274-307 | One file event is one step |
| StoredQueryMaps.StoredQueryMap.RetryDuplicates | libwfs/StoredQueryMap.cpp:309-322 | All duplicates are added again in order |
| StoredQueryMaps.StoredQueryMap.OnConfigChange | libwfs/StoredQueryMap.cpp:324-392 | Nothing happens without polling once everything is loaded; else the changes up to a reload request and the retry of duplicates behind them are a run, files read without an exception are counted, and a first batch with an exception fails |
| RegistrySpec.RunKeysMatch | libwfs/StoredQueryMap.cpp:147-191 | In every interleaving of file events and background tasks each key is the lower-case id of its handler |
| RegistrySpec.StepOthersKept | libwfs/StoredQueryMap.cpp:455-643 | With synchronous adds, a handler is replaced or removed only by an event about its own file |
| RegistryRuns.RunAccountedExactly | libwfs/StoredQueryMap.cpp:455-686 | Over every run, in the background or not, each processed enabled file always has its handler, or is a duplicate, or waits to be added, or a reload has been requested, exactly when no background add replaced the handler that accounts for a file |
| RegistryRuns.StepAccounted | libwfs/StoredQueryMap.cpp:455-686 | The same for one event: only a background add can lose a file, and exactly under that guard on the state |
| RegistryRuns.RunAccounted | libwfs/StoredQueryMap.cpp:455-643 | With synchronous adds nothing ever waits, and after every run each processed enabled file has its handler, or is a duplicate, or a reload has been requested |
| RegistryRuns.BackgroundLoses | libwfs/StoredQueryMap.cpp:676-686 | Two files of one id that are loaded in the background at the start leave one of them unaccounted for when all tasks are done |
| RegistryMatches.RetryDoesNothing | libwfs/StoredQueryMap.cpp:309-322 | Retrying duplicates changes nothing exactly when none of their files is found changed |
| RegistryMatches.StaysDuplicate | libwfs/StoredQueryMap.cpp:508-546 | A retried duplicate stays one exactly when its file has not changed, cannot be parsed or names an id that is taken |
| RegistryMatches.RetryMissesDuplicate | libwfs/StoredQueryMap.cpp:509-520 | A run of four events leaves an id free and the unchanged file of that id a duplicate without a handler |
| RegistryMatches.RetriedMatch | libwfs/StoredQueryMap.cpp:309-322 | Retrying duplicates keeps handlers matching their files exactly when no changed file among them already has a handler |
| RegistryMatches.StepMatch | libwfs/StoredQueryMap.cpp:309-643 | With synchronous adds, any event, a retry of duplicates included, leaves every handler matching the last content of its file, or asks for a reload, exactly when a guard on the event holds |
| RegistryMatches.RunMatchedExactly | libwfs/StoredQueryMap.cpp:309-643 | Over every run with synchronous adds, handlers always match their files until a reload is asked for, exactly when every event met the guard |
| RegistryMatches.RunMatched | libwfs/StoredQueryMap.cpp:455-643 | At the end of such a run every file has one handler at most and each handler matches its file, unless a reload is asked for |
| RegistryMatches.StepOne | libwfs/StoredQueryMap.cpp:309-643 | An event leaves one handler at most for each file, reload or not, exactly when no file with a handler is given another one for a free id while the old id stays |
| RegistryMatches.RunOneExactly | libwfs/StoredQueryMap.cpp:309-643 | Over every run with synchronous adds no file ever has two handlers, a reload requested or not, exactly when every event met that guard |
| RegistryMatches.OneHandlerPerFile | libwfs/StoredQueryMap.cpp:422-439 | While handlers match their files no file has two handlers |
| RegistrySpec.ReloadStays | libwfs/StoredQueryMap.cpp:645-654 | A requested reload is never taken back by an event |
| RegistryEffects.StepReload | libwfs/StoredQueryMap.cpp:548-654 | Only the modification of a file asks for a reload, exactly when the file has changed and can be parsed, and its id is taken by a handler that is not the one of the file or, if it is disabled, by another file |
| RegistryEffects.RunReload | libwfs/StoredQueryMap.cpp:274-654 | After any run a reload is required exactly when some event of it asked for one |
| RegistryEffects.SameIdEdit | libwfs/StoredQueryMap.cpp:562-573 | A served file that keeps its id gets its new handler in the place of the old one, without a reload |
| RegistryEffects.NewIdEdit | libwfs/StoredQueryMap.cpp:573-581 | A served file with a new, free id gets its handler there; the old one goes away exactly when the old id is in lower case |
| RegistryEffects.DisablingEdit | libwfs/StoredQueryMap.cpp:558-560 | A served file that is disabled loses its handler |
| RegistryEffects.EnablingEdit | libwfs/StoredQueryMap.cpp:584-597 | A file that was not served and has a free id is served |
| RegistryEffects.NewFile | libwfs/StoredQueryMap.cpp:508-541 | A new file with a free id is served, or waits for a worker thread during a first update in the background |
| RegistryEffects.NewDuplicate | libwfs/StoredQueryMap.cpp:522-527 | A new file with a taken id becomes a duplicate, and nothing else changes |
| RegistryEffects.NewDisabled | libwfs/StoredQueryMap.cpp:527-531 | A new disabled file is remembered and not served |
| RegistryEffects.Deletion | libwfs/StoredQueryMap.cpp:455-472 | A deleted file loses its digest, its duplicate mark and a handler, and nothing else changes |
| RegistryEffects.NothingNew | libwfs/StoredQueryMap.cpp:508-556 | A file that is unchanged, cannot be read or has another kind of name changes nothing; one that cannot be parsed is only remembered, and throws |
| RegistryEffects.LeastKeyOfFile | libwfs/StoredQueryMap.cpp:422-439 | Of the handlers made from a file, the one found is that of the least key |
| RegistryEffects.ConfigNames | libwfs/StoredQueryMap.cpp:281-284 | Names that are looked at, and hidden files, backups and other kinds that are not |
| Admission.StoredQueryConfig.CheckParamConflicts | libwfs/StoredQueryConfig.cpp:199-245 | For every configuration: reports an error exactly when some declared conflict is impossible, or is told in lower case to a later parameter that finds it impossible; afterwards two parameters conflict exactly when one was told so |
| Admission.LowerNamesSymmetric | libwfs/StoredQueryConfig.cpp:199-245 | With names in lower case an error is reported exactly when a declared conflict is with the parameter itself, with no parameter, or between two mandatory ones, and afterwards two parameters conflict exactly when either of them declared it |
| Admission.CapitalName | libwfs/StoredQueryConfig.cpp:213-241 | A possible conflict declared by a parameter with capital letters is reported exactly when that parameter comes first, and the other one never learns of it under its name |
| Admission.StoredQueryConfig.CheckConflictsOf | libwfs/StoredQueryConfig.cpp:207-241 | One round of that loop: every conflict known to one parameter is told to the others, bad ones are reported, and no conflict appears that was not told |
| Admission.KnownExactly | libwfs/StoredQueryConfig.cpp:199-245 | When no error is reported, every conflict is known to both sides by name exactly when only names in lower case declare conflicts, and all conflicts are possible then |
| ParamExtraction.GetParamDesc | libwfs/StoredQueryConfig.cpp:388-427 | Finds a description exactly when there is one of that name, letter case aside unless the server distinguishes it |
| ParamExtraction.StoredQuery.ExtractKvpParameters | libwfs/StoredQuery.cpp:421-503 | For every configuration: succeeds exactly when the pass admits every parameter, no unknown one is forbidden, and all are there often enough; then every key of the map holds what was read for it, item by item in the order of the request and value by value in the order read, each under the spelling of its item, and the unknown parameters are listed |
| ParamExtraction.PlainIsGiven | libwfs/StoredQuery.cpp:395-418 | As a plain map these are exactly the values given for each key, in that order |
| ParamExtraction.StoredQuery.ExtractXmlParameters | libwfs/StoredQuery.cpp:505-595 | The same for XML parameters, where unknown ones are skipped first |
| ParamRules.AcceptedByRule | libwfs/StoredQuery.cpp:421-503 | For every configuration that the check let pass: where letter case is not distinguished, a request in lower case is accepted exactly when all values can be read, no two supplied parameters conflict, every number of occurrences is within its bounds, and mandatory parameters are configured in lower case; where it is, exactly when that rule accepts, if conflicts are mutual |
| ParamRules.ConflictsAreMutual | libwfs/StoredQueryConfig.cpp:199-245 | Where letter case is not distinguished, a configuration that the check let pass forbids each of two conflicting parameters by the other one, whatever letters are in their names |
| ParamRules.PermittedExactly | libwfs/StoredQuery.cpp:445-475 | Where letter case is distinguished, the pass lets through exactly what the rule permits, lower bounds apart, for all requests exactly when conflicts are mutual |
| ParamRules.AcceptedExactly | libwfs/StoredQuery.cpp:421-503 | The same of whole requests to a configuration without mandatory parameters: they are accepted as the rule says, all of them, exactly when conflicts are mutual |
| ParamRules.AcceptedInAnyOrder | libwfs/StoredQuery.cpp:421-503 | Under the conditions of AcceptedByRule the order of the parameters does not matter |
| ParamRules.BoundsExactly | libwfs/StoredQuery.cpp:649-703 | A parameter may be supplied n times exactly when n is at least its lower bound and, unless it is left out, at most its upper one |
| ParamRules.MandatoryConflict | libwfs/StoredQueryConfig.cpp:230-239 | With two mandatory parameters that conflict no request can be accepted |
| ParamRules.UnorderedExactly | libwfs/StoredQuery.cpp:445-475 | Where letter case is distinguished, the order of the parameters matters to the pass for no request exactly when conflicts are mutual |
| ParamRules.LowerIsMutual | libwfs/StoredQueryConfig.cpp:199-245 | There, conflicts are mutual when only names in lower case declare them |
| ParamRules.CapitalPairAccepted | libwfs/StoredQuery.cpp:445-475 | Parameters "b" and "zB", of which "zB" declares a conflict with "b": the check lets them pass, the request with "b" first is accepted against the rule, and the one with "zB" first is refused |
| ParamRules.CaseMatters | libwfs/StoredQuery.cpp:448-472 | Where letter case is not distinguished, a request is accepted as in AcceptedByRule by every configuration that the check let pass exactly when all its names are in lower case |
| ParamRules.CapitalMandatory | libwfs/StoredQuery.cpp:491-497 | For every name with capital letters there is a configuration with that mandatory parameter and a request in lower case that the rule accepts and the pass refuses |
| ParamRules.ReportsKnown | libwfs/StoredQuery.cpp:370-384 | After the check, a forbidden parameter always has a description to report, in every request, exactly when letter case is not distinguished or every parameter that declares a conflict has a name whose lower case is a parameter |
| Redirects.CreateQuery | libwfs/StoredQuery.cpp:72-100 | The loop ends for every redirect function; it answers exactly when a chain of different ids leads to a handler that does not redirect, and then id, handler and parameters are those of that handler |
| Redirects.OneAnswer | libwfs/StoredQuery.cpp:152-180 | An id has one chain and one answer at most |
| Redirects.GoesNowhere | libwfs/StoredQuery.cpp:86-99 | A chain that redirects to an empty id, or back to one of its ids, has no answer |
| Redirects.ChainLength | libwfs/StoredQuery.cpp:152-180 | No answer takes more steps than there are spellings of registered ids |
| UrlTemplates.UrlTemplateGenerator.Generate | libwfs/UrlTemplateGenerator.cpp:188-227 | The URL is the evaluated address, one separator and the joined pairs, which UrlReading.GeneratedExactly says one by one |
| UrlReading.GeneratedExactly | libwfs/UrlTemplateGenerator.cpp:129-227 | A URL is generated exactly when its address and every text can be evaluated, every getter gives values and no list item has a comma; the query string behind it reads back, in template order, as one pair for every value of a separate parameter, one pair whose value splits into the items for a list, none for an omitted empty one, and one for a text |
| UrlReading.AllPairsAreFields | libwfs/UrlTemplateGenerator.cpp:129-167 | The same of the parameters alone, one part for each |
| UrlReading.FieldsAreThese | libwfs/UrlTemplateGenerator.cpp:129-167 | These fields are determined by the values, unless an item has a comma |
| UrlReading.ReferenceValue | libwfs/UrlTemplateGenerator.cpp:89-110 | A reference in a text stands for its values with commas between them, and is refused where a single value is wanted and there are more |
| UrlReading.ReferenceNames | libwfs/UrlTemplateGenerator.cpp:64-87 | Names of references have letters, digits and underscores and end with a closing brace; nothing else is a reference |
| UrlTemplates.AppendParamRef | libwfs/UrlTemplateGenerator.cpp:129-167 | A reference adds one pair for each value, one list, or nothing, and the separator follows |
| UrlTemplates.EncodeTo | libwfs/UrlTemplateGenerator.cpp:24-53 | Puts out the escaped text |
| UrlTemplates.EvalStringParam | libwfs/UrlTemplateGenerator.cpp:299-342 | Replaces the references and escapes of a text; fails exactly when the text has no reading or a value is missing or not single |
| UrlTemplates.SubstituteParamRef | libwfs/UrlTemplateGenerator.cpp:57-113 | Replaces one reference and goes on behind it |
| UrlTemplates.PartsOfWritten | libwfs/UrlTemplateGenerator.cpp:299-342 | A text written from parts has exactly those parts |
| UrlTemplates.WrittenOfParts | libwfs/UrlTemplateGenerator.cpp:299-342 | The parts of a text write that text |
| UrlEncoding.DecodeEncode | libwfs/UrlTemplateGenerator.cpp:24-53 | Form decoding undoes the escapes for every text |
| UrlEncoding.PlainExactly | libwfs/UrlTemplateGenerator.cpp:28-46 | The characters that stand for themselves are letters, digits and eleven others; a space becomes '+', all others three characters from '%' on |
| UrlEncoding.EncodedIsSafe | libwfs/UrlTemplateGenerator.cpp:24-53 | An encoded text has no other characters than these, '+' and '%' |
| UrlEncoding.QueryRoundTrip | libwfs/UrlTemplateGenerator.cpp:129-167 | A query string split at '&' and the first '=' and decoded gives back all names and values in order |
| UrlEncoding.SplitUndoesJoin | libwfs/UrlTemplateGenerator.cpp:148-163 | Splitting undoes joining exactly when no part contains the separator |
| UrlReading.ListRoundTrip | libwfs/UrlTemplateGenerator.cpp:148-163 | An accepted list is read back exactly when no item contains a comma |
| UrlReading.ListAccepted | libwfs/UrlTemplateGenerator.cpp:148-163 | Without NULs a list is accepted exactly when it can be read back |
| UrlReading.CommaBehindNul | libwfs/UrlTemplateGenerator.cpp:155-160 | A comma behind a NUL is accepted and not read back |
| UrlReading.SeparatorFits | libwfs/UrlTemplateGenerator.cpp:116-127 | Behind any address and any separator the fields of the address are kept and the new ones added exactly when it is '?' and the address has none, or '&' behind fields, or nothing where the fields are empty or end with '&' |
| UrlReading.OwnSeparator | libwfs/UrlTemplateGenerator.cpp:116-127 | The separator chosen for an address that stands for itself is right exactly when the address is not left out and does not end with a second '?' |
| UrlReading.MarkBehindNul | libwfs/UrlTemplateGenerator.cpp:120 | A question mark behind a NUL is not seen |
| UrlReading.ReferencedAddress | libwfs/UrlTemplateGenerator.cpp:188-199 | The separator chosen for an address that is one reference is right exactly when its value has no '?' |
| UrlReading.GeneratedReadBack | libwfs/UrlTemplateGenerator.cpp:188-227 | For every template: a reader of the whole URL gets the fields of the evaluated address and then the new ones exactly when the separator is right for that address, and then these are the intended names and values |
| Substitution.RequestBase.SubstituteAll | libwfs/RequestBase.cpp:145-192 | The output is the leftmost substitution of the text up to its first NUL; the table of first characters never changes it |
| Substitution.SubstitutedByCut | libwfs/RequestBase.cpp:168-186 | The substitution is what the one leftmost cut into markers and characters stands for, and values are not looked at again |
| Substitution.OneCut | libwfs/RequestBase.cpp:168-186 | A text has one leftmost cut |
| Substitution.OrderDoesNotMatter | libwfs/RequestBase.cpp:151-158 | The order of the marker list does not change the output |
| Substitution.TemplateFilled | libwfs/RequestBase.cpp:168-186 | Markers between texts without '@' are replaced one by one |
| Substitution.MarkerFree | libwfs/RequestBase.cpp:168-186 | A text without markers stays as it is |
| Substitution.SubstListMarkers | libwfs/QueryBase.cpp:5-8 | None of the four markers begins another one |
| Substitution.MarkersStandFor | libwfs/RequestBase.cpp:151-158 | What each of the four markers becomes, with and without a value set |

## Left out

- AdHocQueries.FilterCompiler.ExtractXmlParameters: stated for filters whose terms are single elements, fes:Or of terms, or fes:And of elements and of fes:Or of elements; below fes:And a nested fes:And, and fes:And or fes:Or below such a fes:Or, lose indexes in the program, and nothing is claimed for them. An element that is no operator is assumed to contain a recognised parameter or comparison.
- AdHocQueries.FilterCompiler.ReadQueryParameter: parameter names are in lower case, and reading the value of an XML element is a given list of values with its check of limits.
- FilterDnf.CompileKeepsMeaning: about filters that are accepted; which fes:Or sets are is FilterAcceptance.CombinableExactly.
- Conditions.AddConditionAppends: the text of one condition (operator, reference, literal, match case) is not modelled, only its place in the expression.
- CodecRoundTrip.MapRoundTrip: for every integer but the smallest 64-bit one, whose negation C++ leaves undefined, and for texts shorter than 2^32, the width of the counter in get_string.
- FeatureIds.IdRoundTrip: for the same values and texts as CodecRoundTrip.MapRoundTrip; so are FeatureIds.IdInjective and CacheKeys.CacheKeySound.
- InputStream.IBStream.GetUnsigned: a shift by 64 or more, which C++ leaves undefined and which only malformed input reaches, gives no bits.
- InputStream.IBStream.GetTime: whether a date exists in the calendar is not checked.
- FeatureIds.FeatureID.CreateFromId: Base 64 text with errors is refused as section 4 of RFC 4648 has it; how the library used treats such text is not modelled. SHA-1 is any function to 20 bytes.
- RegistryRuns.RunAccountedExactly: different contents are assumed to have different digests.
- StoredQueryMaps.StoredQueryMap.OnConfigChange: the order of events chosen by the directory monitor, the threads that wait for the first load and the reset of the reload flag by its reader are not modelled; the construction of a handler always succeeds; locks are atomic steps.
- ParamRules.AcceptedExactly: with mandatory parameters the exact condition is stated before the lower bounds of occurrences, in ParamRules.PermittedExactly; the pass and the rule treat these bounds alike where letter case is distinguished.
- ParamExtraction.StoredQuery.ExtractKvpParameters: the report of a forbidden parameter without a description, which C++ leaves undefined, counts as a failure; ParamRules.ReportsKnown says when it can be met.
- UrlReading.GeneratedReadBack: a '#' in the address is a character like any other.
- Redirects.CreateQuery: the registry does not change during one request.
- UrlTemplates.UrlTemplateGenerator.Generate: the parsing of parameter templates is not modelled; a letter of a reference is an ASCII letter, as in the C locale.
- XML access, schema download, HTTP, output templates, libconfig, capabilities, geometry and database calls belong to foreign libraries.
- Projection clauses and aliases of ad hoc queries, error texts, logging and summaries would only add easy members.
