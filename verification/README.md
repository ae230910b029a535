# Verified models of MiniStack's core logic

MiniStack emulates AWS services in one process. This project models the parts of it whose
correctness rests on reasoning that crosses functions or runs, and proves what they keep:

- **The AppSync filter compiler** turns a nested filter into a flat DynamoDB expression with name and
  value tables. The expression is modelled as tokens and read back by a parser with DynamoDB's
  precedence (comparison, `IN` and `BETWEEN`, then `NOT`, `AND`, `OR`). For every supported filter the
  parsed expression decides every item as the filter does with each operand read as the last one of its
  field, operator and position; without conflicting placeholders that is the filter itself.
  (`ConditionExpressions`, `PlaceholderKeys`, `FilterTransform`, `FilterParsing`, `FilterMeaning`,
  `FilterCorrectness`, `FilterCompiler`)
- **The aws-chunked decoder**, an index walk over length-prefixed frames and a trailer section, is
  proved equal to a recursive parser that accepts exactly the encodings of a body and returns the
  frames' data in their order. What its sizes, trailer lines and headers say is stated without the code
  that reads them. (`PythonText`, `TextMeaning`, `AwsChunked`, `AwsChunkedWalk`, `ChunkedText`)
- **Lambda execution environments**: one `provided.*` environment as a state machine over its lock
  sections, and the pool of leased workers. (`RuntimeProtocol`, `RuntimeAnswers`, `RuntimeErasure`,
  `RuntimeWorker`, `LeasePool`, `WorkerPool`)
- **The IAM decision engine**: wildcards through generated regular expressions, condition operators,
  principals, layered evaluation under limits, resource policies, trust policies. Every decision is
  also stated over the policies' own lists, and every principal over the texts of its entries.
  (`IamGlob`, `IamConditions`, `IamPrincipals`, `IamDecision`, `IamMeaning`, `IamCallers`)
- **The pool of Node processes**, with recycling and folding. (`NodePool`, `NodeWorkers`)
- **Re-entrant calls**: the awaiter that absorbs cancellations, and the live counters. (`Reentrant`)
- **Test sharding**, with the classic bound for longest-processing-time scheduling. (`Sharding`)
- **Sortable ids**, **the persistence codec** and **the RDS capability registry**. (`SortableIds`,
  `Persistence`, `RdsCapabilities`)

Where the Python and JavaScript files update state in place, the model does too: a class or a method
with a loop is proved against a function on values, and the results are lemmas about that function.
Check everything with `dafny verify dfyconfig.toml`.

## Where a property has an exception

Each of these is a lemma with a concrete input or run, beside a lemma saying exactly when the
property does hold.

- A filter that uses one operator twice on one field with different operands loses an operand,
  because value placeholders are keyed by field and operator only (`RepeatedOperatorLosesValue`,
  `ValueTableFaithfulIff`); what such a filter's output means is `CompiledFilterReadsLast`.
- The operator table of `ministack/core/appsync_js.py` is a JavaScript object literal, so a lookup also
  finds what every object inherits. `{a: {constructor: 1}}` compiles without an error to `#a`, and
  `toString` and `isPrototypeOf` to words; DynamoDB can read none of them (`InheritedNameCompiles`,
  `TransformThrowsIff`, `ParsesIffReadable`).
- A bootstrap that posts an init error whose body is a JSON `null` fails an invocation without
  ending the environment: its event stays queued, and the next `invoke` blocks on the one-slot queue
  (`NullInitErrorBlocksNextPut`, `PutBlocksIff`).
- A wildcard pattern and its generated expression differ on values with newlines (`NewlinesDiffer`), and
  on no others (`GlobIffNoNewline`); what the expression accepts on every value is `FnmatchExactly`.
- A principal outside the forms AWS allows, a bare list or a bare text other than `*`, can be named
  by a statement that does not match it, such as a role's ARN as bare text and a session of that role
  (`BareNamesMore`, `NamedIsMatchedIff`). The decision for such documents is stated too
  (`AuthorizeAnyDocument`).
- Resetting the Node pool while a call runs can make that call's release raise `ValueError`
  (`ResetMidCallRaises`, `ReleaseRaisesIff`, `QuietNeverRaises`).
- A cancelled re-entrant call ends in its first cancellation unless its worker died of an exception
  outside `Exception`, which then surfaces instead (`FatalErrorReplacesCancellation`, `EndsIff`).
- On Python before 3.12 a worker that raises `StopIteration` leaves its awaiter waiting for good, since
  the future refuses the exception (`StopIterationStrands`, `CompletesIff`).
- Scoped keys read back from disk exactly when account and region hold no NUL, a regional scope has its
  disk key to itself under the same condition, and values read back exactly when no dictionary looks
  tagged (`DiskKeysCollide`, `ScopeRoundTripIff`, `UnsharedIff`, `RoundTripIff`).

## Model

| member | source | states |
|---|---|---|
| FilterCorrectness.CompiledFilterMeansFilter | ministack/core/appsync_js.py:295-361 | for every supported filter with non-empty `in` lists and no conflicting operands, the emitted expression, parsed with DynamoDB's precedence and evaluated with the emitted tables, has the filter's truth value on every item; it is empty exactly when the filter says nothing |
| FilterCorrectness.CompiledFilterReadsLast | ministack/core/appsync_js.py:295-361 | for every supported filter with non-empty `in` lists, conflicts or not, the parsed output has on every item the truth value of the filter in which each operand is replaced by the last one used with its field, operator and position |
| FilterCorrectness.TransformThrowsIff | ministack/core/appsync_js.py:349-354 | the transform throws exactly when some non-null operand sits under a name that is neither an operator nor one of the three inherited names whose lookup succeeds and whose call returns |
| FilterCorrectness.OpFails | ministack/core/appsync_js.py:325-354 | which operators and operands throw, and what is thrown: the unknown name, a list operator without a list, an inherited function without its receiver |
| FilterCorrectness.InheritedNameCompiles | ministack/core/appsync_js.py:349-354 | a field with `constructor`, `toString` or `isPrototypeOf` for an operator raises nothing and compiles to text that does not parse, whatever the operand |
| FilterCorrectness.ParsesIffReadable | ministack/core/appsync_js.py:325-354 | a non-empty result is an expression of DynamoDB's grammar exactly when every operator is supported and no `in` list is empty |
| FilterCorrectness.ValueTableFaithfulIff | ministack/core/appsync_js.py:308-312 | every placeholder holds the operand it was made for exactly when no field, operator and position recur with another operand |
| FilterCorrectness.BoundIffConflictFree | ministack/core/appsync_js.py:308-312 | the same for any sequence of writes into the value table |
| FilterCorrectness.PlaceholdersMarked | ministack/core/appsync_js.py:307-312 | every emitted name placeholder is `#` before its field, and every value placeholder a colon before field, operator and position |
| FilterCorrectness.RepeatedOperatorLosesValue | ministack/core/appsync_js.py:308-312 | one operator used twice on a field: DynamoDB rejects an item the filter accepts |
| FilterCorrectness.UsesDecide | ministack/core/appsync_js.py:333-359 | whether the walk throws, and whether its result can be read, depends only on which operators, inherited names included, are used with which operands |
| FilterMeaning.Lowered | ministack/core/appsync_js.py:333-359 | the clauses of a node mean what the node means, empty sub-filters counting as absent, whatever values its operands are read with |
| FilterMeaning.OpLowered | ministack/core/appsync_js.py:315-354 | under each of AppSync's thirteen operator names a clause has the truth its own table gives that name: which comparison or function of DynamoDB, on which attribute value, with which bounds or list |
| FilterMeaning.AttrIs | ministack/core/appsync_js.py:299-306 | the attribute value sent for an operand, by the kind of its JavaScript value |
| FilterCorrectness.WrittenLast | ministack/core/appsync_js.py:308-312 | a placeholder holds the last value written under it |
| FilterCorrectness.WrittenIsLast | ministack/core/appsync_js.py:308-312 | looking a value up by its placeholder text finds what the field, operator and position were used with last |
| PlaceholderKeys.KeysInjective | ministack/core/appsync_js.py:308-312 | the placeholder texts `:field_op` and `:field_op_i` determine field, operator and position, whatever characters the field has |
| FilterParsing.ConjParses | ministack/core/appsync_js.py:333-359 | the printed conjunction parses back, alone and before any continuation, as a tree with the clauses' truth |
| FilterParsing.ClauseParses | ministack/core/appsync_js.py:315-359 | each printed clause parses back where an operand may stand, the AND inside BETWEEN included |
| FilterCompiler.CompileFilter | ministack/core/appsync_js.py:295-361 | the recursive walk with its shared tables returns the specified expression and tables, or the same kind of error, inherited operator names included |
| FilterCompiler.Transform.Walk | ministack/core/appsync_js.py:333-359 | a walk prints the node's clauses and adds exactly its names and values to the tables, in order, an error included |
| FilterCompiler.Transform.AddValue | ministack/core/appsync_js.py:308-312 | one placeholder is written, the rest of the tables stay |
| AwsChunkedWalk.Request.DecodeBody | ministack/app.py:647-744 | the index walk returns what the recursive decoder returns, changes the headers as it says, and leaves them alone when it rejects |
| AwsChunkedWalk.WalkFrames | ministack/app.py:663-690 | the loop over the body finds the frames and the trailer bytes the re-slicing parser finds, or fails with its error |
| AwsChunkedWalk.FindCrlf | ministack/app.py:667-667 | the first CRLF at or after a position, or none |
| AwsChunkedWalk.CollectFields | ministack/app.py:692-709 | the trailer loop gathers the fields of all lines or fails at the first bad one |
| AwsChunked.DecodeEncoded | ministack/app.py:663-733 | decoding an encoded body returns its frames' data, each behind the data of the frames before it and nothing else, and lifts its trailers; it succeeds exactly when announced trailers are present and the declared length fits, a number of more than 4300 digits being refused as `int` refuses it |
| AwsChunked.AcceptedIsEncoding | ministack/app.py:663-735 | an accepted body is frames, one zero frame and a complete trailer section with nothing left over; the output is the frames' data, each at the offset the frames before it leave |
| AwsChunked.PayloadInOrder | ministack/app.py:663-719 | the joined chunks hold each frame's data at the summed length of those before it, and have the total length |
| ChunkedText.SizeIff | ministack/app.py:667-678 | a size line is read as n exactly when it is ASCII, and white space around hexadecimal digits of n, in either case, stands before its first semicolon |
| ChunkedText.TrailerFieldIff | ministack/app.py:699-709 | a trailer line gives a name and value exactly when ASCII text before its first colon trims and lowers to that nonempty name |
| ChunkedText.SectionIff | ministack/app.py:692-698 | a trailer section is complete exactly when it is one line end or ends in two |
| ChunkedText.ChunkedIff | ministack/app.py:649-656 | which three headers make a body one to decode |
| ChunkedText.AnnouncedIff | ministack/app.py:711-717 | the announced trailers are the trimmed, lowered, nonempty pieces between the commas of their header |
| ChunkedText.LengthIff | ministack/app.py:720-725 | a declared length stands exactly when it spells the decoded length in decimal digits |
| ChunkedText.EncodingLeft | ministack/app.py:736-742 | the encoding header keeps its other names in order, and goes when none is left |
| AwsChunked.PrefixRejected | ministack/app.py:663-698 | every strict prefix of an encoded body is rejected |
| AwsChunked.ParseEncode | ministack/app.py:663-690 | parsing undoes encoding, whatever the data holds, CRLFs included |
| AwsChunked.EncodeParse | ministack/app.py:663-690 | what parses is the encoding of the parts found |
| AwsChunked.ParsePrefix | ministack/app.py:666-690 | an encoding cut short fails to parse, or gives the same frames with a shorter trailer section |
| AwsChunked.TrailersParse | ministack/app.py:692-698 | a trailer section reads back as its lines |
| AwsChunked.TrailersPrefix | ministack/app.py:693-698 | a cut trailer section is rejected |
| AwsChunked.FirstTrailerWins | ministack/app.py:699-709 | the first of several trailers with one name counts |
| AwsChunked.FieldsIff | ministack/app.py:699-709 | the trailer lines are accepted exactly when each is a name, a colon and a value |
| AwsChunked.RequestHeadersWin | ministack/app.py:732-744 | no trailer overrides a request header, except the content encoding where the decoder removed aws-chunked from it |
| RuntimeProtocol.ReturnsOwnResult | ministack/core/lambda_runtime.py:2183-2283 | in every interleaving an invocation returns a payload posted for its own id by its own generation, an error of that kind, its generation's init error, or a failure |
| RuntimeAnswers.ReturnsExactly | ministack/core/lambda_runtime.py:2219-2283 | in every interleaving an invocation fails exactly when it gave up waiting; otherwise it returns a response exactly when that was accepted for its id and generation, and an error exactly when that was or, without a post, an init error with that payload came first |
| RuntimeAnswers.EachReturnsOnce | ministack/core/lambda_runtime.py:2183-2283 | every announced request has returned exactly once, but for the one being served |
| RuntimeAnswers.EnvironmentLost | ministack/core/lambda_runtime.py:2219-2331 | which steps end the environment: giving up, and an error answer with a recorded init error; a spawn starts the next generation, and an exit or a discard leaves the open request as it is |
| RuntimeAnswers.PollGoesOn | ministack/core/lambda_runtime.py:1945-1983 | a poll goes on exactly while its generation is live and not stopping, takes the event it finds in its own queue, and otherwise looks again |
| RuntimeProtocol.AcceptsEachIdOnce | ministack/core/lambda_runtime.py:1888-1905 | no request id is accepted twice |
| RuntimeProtocol.DeadGenerationChangesNothing | ministack/core/lambda_runtime.py:1867-1905 | one poll or post of another generation leaves the live one unchanged |
| RuntimeErasure.DeadStepsErasable | ministack/core/lambda_runtime.py:1867-1905 | taking every step of a dead generation out of any run leaves a run that ends in the same live state: same shared fields, live queue and threads, events taken and init errors posted in the live generation, acceptances and returns |
| RuntimeProtocol.EventTakenOnceByItsGeneration | ministack/core/lambda_runtime.py:1945-1983 | an event is taken at most once, by a poll thread of the generation it was queued for |
| RuntimeProtocol.PutDoesNotBlock | ministack/core/lambda_runtime.py:2210-2219 | with a bootstrap that answers only ids it was handed, the put finds an empty queue unless a null init error was posted |
| RuntimeProtocol.PutBlocksIff | ministack/core/lambda_runtime.py:2210-2219 | the put blocks exactly when an earlier invocation of this environment failed on init errors posted while it was served, the last of them null, and nobody has taken its event since |
| RuntimeProtocol.NullInitErrorBlocksNextPut | ministack/core/lambda_runtime.py:1875-1886 | a run in which a null init error makes the next put block |
| RuntimeProtocol.RunSafe | ministack/core/lambda_runtime.py:1867-1905 | the safety invariant holds after every run |
| RuntimeWorker.ProvidedWorker.OnFirstPoll | ministack/core/lambda_runtime.py:1867-1873 | a poll is admitted exactly while its generation is live and not stopping; only an admitted one settles init, a refused one changes nothing |
| RuntimeWorker.ProvidedWorker.OnInitError | ministack/core/lambda_runtime.py:1875-1886 | an init error of the live generation answers the request being served, after which no post is taken for it; one of another generation changes nothing |
| RuntimeWorker.ProvidedWorker.OnResult | ministack/core/lambda_runtime.py:1888-1905 | a result is taken exactly when it is for the request being served by the live generation; then no post is taken until the next request, and no id is answered twice while ids are fresh |
| RuntimeWorker.ProvidedWorker.StartGeneration | ministack/core/lambda_runtime.py:2080-2093 | no handler of any earlier generation can change anything from here on, and no request is open |
| RuntimeWorker.ProvidedWorker.ArmInvocation | ministack/core/lambda_runtime.py:2210-2217 | exactly the posts for the announced request by the live generation would be taken |
| RuntimeWorker.ProvidedWorker.CollectResult | ministack/core/lambda_runtime.py:2249-2254 | what is collected is empty or answers the request announced last, by its generation; afterwards no post is taken, and init counts as failed exactly when a non-null init error was recorded |
| RuntimeWorker.ProvidedWorker.StopGeneration | ministack/core/lambda_runtime.py:2285-2298 | after a teardown no poll of any generation is admitted and no post taken |
| RuntimeWorker.ProvidedWorker.DiscardEnvironment | ministack/core/lambda_runtime.py:2323-2331 | after a discard no poll is admitted, while exactly the posts that would have been taken still are |
| LeasePool.NeverLeasedTwice | ministack/core/lambda_runtime.py:1614-1653 | over every run no worker is leased while another caller holds it |
| LeasePool.NestedLeasesDistinct | ministack/core/lambda_runtime.py:1614-1653 | nested acquisitions without a cap all succeed at once, with distinct workers |
| LeasePool.WidthBelowPeak | ministack/core/lambda_runtime.py:1614-1653 | a key's pool is never wider than its peak of simultaneous leases |
| LeasePool.ReapSpares | ministack/core/lambda_runtime.py:1656-1691 | a worker survives reaping exactly when it is leased, fresh, or its key's first and no SnapStart version; the survivors keep their order |
| LeasePool.KeptIff | ministack/core/lambda_runtime.py:1680-1685 | the same for any list of workers without repetition |
| LeasePool.MatchesWorkerKey | ministack/core/lambda_runtime.py:1736-1772 | for names without a colon, a key is invalidated exactly when it was built for that function and agrees with the qualifier, account and region given |
| LeasePool.MatchesOtherKeys | ministack/core/lambda_runtime.py:1736-1772 | a key of three parts is matched without its region, and a key of any other number of parts never |
| LeasePool.RunGood | ministack/core/lambda_runtime.py:1614-1780 | the pool invariant holds after every run |
| WorkerPool.WarmPool.AcquireWorker | ministack/core/lambda_runtime.py:1614-1653 | acquiring on worker objects does what the pool function does, and touches no other worker |
| WorkerPool.WarmPool.ReleaseWorker | ministack/core/lambda_runtime.py:1708-1713 | releasing frees exactly that worker |
| WorkerPool.WarmPool.ReapIdle | ministack/core/lambda_runtime.py:1656-1691 | the reaper's loops leave the specified pool and kill exactly the workers idle past the TTL that are behind the first place or SnapStart versions; where each worker is listed once, these are the ones that left |
| WorkerPool.WarmPool.InvalidateWorker | ministack/core/lambda_runtime.py:1736-1772 | exactly the matching keys are dropped and their workers returned for killing |
| WorkerPool.WarmPool.Reset | ministack/core/lambda_runtime.py:1775-1780 | the pool is emptied and every worker returned for killing |
| IamGlob.FnmatchIsGlob | ministack/core/iam_evaluator.py:99-136 | on values without a newline the generated expression accepts exactly what the declarative wildcard relation accepts, in both case modes |
| IamGlob.FnmatchExactly | ministack/core/iam_evaluator.py:99-136 | what the expression accepts on every value: wildcards stay within a line, and one final newline may be left over |
| IamGlob.GlobIffNoNewline | ministack/core/iam_evaluator.py:99-136 | expression and wildcard relation agree on a value for all patterns exactly when it holds no newline, in both case modes |
| IamGlob.MatchesItself | ministack/core/iam_evaluator.py:117-136 | a value without a newline matches itself as a pattern |
| IamGlob.NewlinesDiffer | ministack/core/iam_evaluator.py:111-111 | with newlines the two differ in both directions |
| IamGlob.GlobCache.FnmatchCompile | ministack/core/iam_evaluator.py:99-114 | in every reachable state of the bounded cache the answer is the uncached compilation |
| IamGlob.GlobCache.Match | ministack/core/iam_evaluator.py:117-136 | matching through the cache answers as matching without it, and leaves the cache valid |
| IamConditions.ComplementIff | ministack/core/iam_evaluator.py:392-445 | a negated operator under the dual set quantifier is the complement of the affirmative one exactly when the comparison is settled: some value decides it or everything can be read |
| IamConditions.PairsComplement | ministack/core/iam_evaluator.py:392-445 | String, StringLike, Arn and IpAddress pairs are complements for every value and every expected list; ForAllValues of one is the complement of ForAnyValue of the other |
| IamConditions.IfExistsIff | ministack/core/iam_evaluator.py:404-426 | with IfExists the complement holds exactly for present, settled keys, and the suffix changes nothing for present ones |
| IamConditions.KeyComplement | ministack/core/iam_evaluator.py:448-481 | the complement carries over to a key of a policy block, request tags with several case variants included |
| IamConditions.NamesParse | ministack/core/iam_evaluator.py:354-419 | however cased, the name of every operator with prefix and suffix reads back as that operator |
| IamConditions.LookUpInverse | ministack/core/iam_evaluator.py:354-381 | only an operator's own name looks it up |
| IamConditions.BareNameNegated | ministack/core/iam_evaluator.py:467-476 | the request-tag branch's own stripping reaches the same verdict on negation |
| IamConditions.ExpectedListsJoin | ministack/core/iam_evaluator.py:434-445 | expected lists are disjunctions for affirmative and conjunctions for negated operators |
| IamConditions.ConditionsMet | ministack/core/iam_evaluator.py:448-481 | the early-returning loops decide whether every key of every block is met |
| IamPrincipals.DirectIsNamed | ministack/core/iam_evaluator.py:690-708 | whoever is named directly is named |
| IamPrincipals.NamedIsMatched | ministack/core/iam_evaluator.py:690-697 | whoever a well-formed principal names it matches |
| IamPrincipals.NamedIsMatchedIff | ministack/core/iam_evaluator.py:690-697 | for every form of principal, exactly when being named implies being matched |
| IamPrincipals.NamedUnlessAccount | ministack/core/iam_evaluator.py:687-697 | an AWS list names the caller exactly when an entry other than an account principal matches |
| IamPrincipals.UserIsNoAccount | ministack/core/iam_evaluator.py:687-702 | a user or session ARN is never an account principal |
| IamPrincipals.BareNamesMore | ministack/core/iam_evaluator.py:690-697 | for any account, role and session: the role's ARN as bare text names the session without matching it, and so does a bare list of `*` |
| IamDecision.EvaluateIff | ministack/core/iam_evaluator.py:575-605 | Deny exactly when some layer denies; Allow exactly when none does, the policies allow and every limit allows, by the statements that apply |
| IamDecision.OrderIrrelevant | ministack/core/iam_evaluator.py:586-605 | permuting or regrouping statements, documents and limits never changes the decision |
| IamDecision.AddedDeny | ministack/core/iam_evaluator.py:586-605 | a Deny put anywhere never yields Allow and keeps a denial |
| IamDecision.AddedAllow | ministack/core/iam_evaluator.py:586-605 | an Allow put anywhere never takes an Allow away and leaves denials as they were |
| IamDecision.AddedLimit | ministack/core/iam_evaluator.py:586-605 | the decision with one more limit, from the decision without it: only narrower |
| IamDecision.FirstMatch | ministack/core/iam_evaluator.py:575-583 | the first statement of the effect that applies, when one does |
| IamDecision.ResourceVerdictIff | ministack/core/iam_evaluator.py:711-753 | a resource policy denies and allows by the statements its mode selects |
| IamDecision.EvaluateResourcePolicy | ministack/core/iam_evaluator.py:711-753 | the collecting loop selects exactly the statements of its mode |
| IamDecision.SelectionsNest | ministack/core/iam_evaluator.py:690-753 | direct selection lies within named selection, and for well-formed documents named within full |
| IamDecision.AuthorizeIff | ministack/core/iam_evaluator.py:756-783 | the combined decision for well-formed documents, both directions, required and cross-account cases included |
| IamDecision.AuthorizeAnyDocument | ministack/core/iam_evaluator.py:756-783 | the combined decision for any document |
| IamDecision.AuthorizeAddedLimit | ministack/core/iam_evaluator.py:756-783 | a further limit never turns a combined refusal into Allow |
| IamMeaning.AppliesIff | ministack/core/iam_evaluator.py:140-160 | a statement applies exactly when some action pattern names the action ignoring case or, with none listed, no NotAction pattern does, the same case-sensitively for the resource, and its conditions are met |
| IamMeaning.PlainPatternIff | ministack/core/iam_evaluator.py:99-136 | a pattern without wildcards names a value exactly when it is the value, letter by letter up to case where case is ignored |
| IamMeaning.EvaluateMeans | ministack/core/iam_evaluator.py:586-605 | the decision over the statements of all layers and what each lists |
| IamMeaning.EvaluateNames | ministack/core/iam_evaluator.py:575-605 | the decision carries the sid of the policies' first counting Allow, or of the first counting Deny of the first layer that denies |
| IamMeaning.AuthorizeMeans | ministack/core/iam_evaluator.py:756-783 | the combined decision over the statements of policies, limits and resource policy and what each lists |
| IamMeaning.TableIff | ministack/core/iam_evaluator.py:256-381 | under each operator name the dispatch table holds that name's test of two values, orderings included, and it holds no other names |
| IamMeaning.ConditionIff | ministack/core/iam_evaluator.py:392-445 | what an operator asks of a key, absent, single or a list, under any prefix, suffix and casing of its name |
| IamMeaning.NullIff | ministack/core/iam_evaluator.py:397-400 | `Null` asks for an absent key with true or no value, and for a present one otherwise |
| IamMeaning.OtherOperatorsFail | ministack/core/iam_evaluator.py:419-422 | any other operator is met by nothing |
| IamMeaning.KeyIff | ministack/core/iam_evaluator.py:448-481 | one key of a block: a request tag with several case variants is judged variant by variant, all of them for a negation and one otherwise |
| IamMeaning.MetIff | ministack/core/iam_evaluator.py:448-481 | conditions fail exactly when some key of some block that is an object fails |
| IamCallers.ReachesIff | ministack/core/iam_evaluator.py:1893-1924 | an `AWS` entry matches a caller exactly as `*`, by an account id between two colons, by wildcard, as a role for its sessions in the same account, or as a root for its account |
| IamCallers.PrincipalIff | ministack/core/iam_evaluator.py:1887-1926 | the same for every form of principal |
| IamCallers.ServiceIff | ministack/core/iam_evaluator.py:671-684 | a service principal names the calling service, up to case |
| IamCallers.AccountPrincipalIff | ministack/core/iam_evaluator.py:687-687 | an account principal is twelve digits or a root's ARN in any partition |
| IamCallers.UserOrSessionIff | ministack/core/iam_evaluator.py:700-703 | which callers are IAM users or role sessions, by the form of their ARN |
| IamCallers.SelectsIff | ministack/core/iam_evaluator.py:687-753 | whom a statement of a resource policy counts for in each mode, over the texts of its principal |
| IamMeaning.SelectedInOrder | ministack/core/iam_evaluator.py:735-753 | a statement is collected exactly when its own principal selects the caller, behind those before it and ahead of those after it |
| IamCallers.TrustIff | ministack/core/iam_evaluator.py:1844-1884 | a trust statement applies exactly when it lists actions that name the request, its conditions are met and its principal matches the caller, or names the provider of a web identity |
| IamDecision.EvaluateTrustPolicy | ministack/core/iam_evaluator.py:1811-1876 | despite its early return, the loop allows exactly when no applying statement denies and one allows |
| NodePool.NeverShared | ministack/core/node_pool.py:186-219 | no worker serves two calls at once |
| NodePool.ServedBounded | ministack/core/node_pool.py:112-211 | no process serves more than `recycle_after` calls, nor more than one when that is zero |
| NodePool.CallCounts | ministack/core/node_pool.py:112-157 | every call counts whatever its outcome; the worker keeps a process exactly when it answered or none could be started, and only a timeout kills it |
| NodePool.ProcessIs | ministack/core/node_pool.py:112-130 | a call runs on the worker's own process while that is alive, and on a new one otherwise |
| NodePool.LiveIdleBounded | ministack/core/node_pool.py:197-211 | at most `max_idle + 1` idle listed workers hold a live process, resets in mid-call included |
| NodePool.ReleaseRaisesIff | ministack/core/node_pool.py:197-211 | a release fails exactly when a reset unlisted its worker, it is not due for recycling and the list idles past its bound |
| NodePool.QuietNeverRaises | ministack/core/node_pool.py:197-226 | no release fails while resets happen only between calls |
| NodePool.ResetMidCallRaises | ministack/core/node_pool.py:197-226 | for any idle bound and any recycling of at least two calls, a reachable state in which a reset in mid-call makes the next release fail |
| NodeWorkers.NodeWorkerPool.Acquire | ministack/core/node_pool.py:186-195 | the first free worker is leased, or a new one listed |
| NodeWorkers.NodeWorkerPool.Release | ministack/core/node_pool.py:197-211 | releasing on worker objects does what the pool function does |
| NodeWorkers.NodeWorkerPool.Reset | ministack/core/node_pool.py:221-226 | the list is emptied and returned for shutdown |
| NodeWorkers.Worker.Call | ministack/core/node_pool.py:112-157 | the counter and the process field after each outcome of a call |
| Reentrant.NeverUnwindsEarly | ministack/core/concurrency.py:113-190 | however many cancellations arrive, the awaiter ends only once its worker's function is over and delivered |
| Reentrant.EndsIff | ministack/core/concurrency.py:170-190 | an uncancelled call gives its worker's value or raises its exception, a cancelled one ends in its first cancellation unless the outcome is fatal |
| Reentrant.FatalErrorReplacesCancellation | ministack/core/concurrency.py:170-190 | a run in which a fatal outcome surfaces instead of the cancellation |
| Reentrant.CountersExact | ministack/core/concurrency.py:94-100 | each counter is the number of live threads and is raised and lowered once per call on every path |
| Reentrant.ThreadsMove | ministack/core/concurrency.py:135-168 | no step lets a call's or a job's thread skip a stage or go back |
| Reentrant.OpenLoopCompletes | ministack/core/concurrency.py:135-190 | while the loop is open, the call of an ended worker can always be delivered and woken to its end, unless the future refuses its exception |
| Reentrant.CompletesIff | ministack/core/concurrency.py:135-190 | the call of an ended worker can end at all exactly when the worker did not raise `StopIteration` on a Python before 3.12 |
| Reentrant.StopIterationStrands | ministack/core/concurrency.py:135-140 | a run after which no continuation ends the call, without any cancellation |
| Reentrant.AwaitWorker | ministack/core/concurrency.py:170-190 | the absorbing loop ends as the state machine's awaiter does |
| Sharding.BuildShards | scripts/select_test_shard.py:59-65 | the loop returns the greedy plan, or fails when there are files and no shard |
| Sharding.PlanSplitsExactly | scripts/select_test_shard.py:59-65 | every file lands in exactly one shard |
| Sharding.PlanNearOptimal | scripts/select_test_shard.py:59-65 | with n shards, 3n times any shard is at most 4n-1 times the largest shard of any rival assignment |
| Sharding.PlanBalanced | scripts/select_test_shard.py:59-65 | two shards differ by at most the largest count |
| Sharding.GreedyFourThirds | scripts/select_test_shard.py:61-64 | the same bound for the greedy placement of any decreasing sizes |
| Sharding.GreedyAverageBound | scripts/select_test_shard.py:61-64 | n times any shard is at most the sum plus n-1 times the largest count |
| Sharding.LargeLastFileFits | scripts/select_test_shard.py:61-64 | a last file larger than a third of a rival's bound still fits within that bound |
| Sharding.LoadsConserve | scripts/select_test_shard.py:60-64 | the totals of all shards add up to the sum of all counts |
| Sharding.MinIndex | scripts/select_test_shard.py:62-62 | the first index of a smallest total |
| SortableIds.AutoUlid | ministack/core/appsync_js.py:86-94 | the loops build the time numeral and the random part |
| SortableIds.TimePartsIff | ministack/core/appsync_js.py:87-89 | time parts order and identify clock readings up to fifty bits, no further |
| SortableIds.UlidsSortByTime | ministack/core/appsync_js.py:86-94 | ids of different times below 2^50 have 26 characters and sort by time whatever their random parts |
| SortableIds.UlidCarriesBytes | ministack/core/appsync_js.py:90-93 | the i-th character behind the time is the alphabet's at the i-th random byte modulo 32 |
| SortableIds.SameMomentIff | ministack/core/appsync_js.py:86-94 | two ids of one moment are equal exactly when their random bytes agree modulo 32 |
| SortableIds.AutoKsuid | ministack/core/appsync_js.py:95-105 | the division loop and the padding give the 27-place numeral; out-of-range clocks raise |
| SortableIds.KsuidsSort | ministack/core/appsync_js.py:95-105 | ids sort by second and then random number, and no two payloads share one |
| SortableIds.KsuidFits | ministack/core/appsync_js.py:102-104 | 160 bits fit into 27 places of base 62 |
| Persistence.RoundTripIff | ministack/core/persistence.py:85-141 | decoding an encoded value gives it back exactly when no dictionary looks tagged and scopes hold no NUL |
| Persistence.EncodingInjective | ministack/core/persistence.py:85-141 | distinct storable values have distinct saved forms |
| Persistence.DecodedStorable | ministack/core/persistence.py:114-141 | whatever decoding yields is storable |
| Persistence.ScopeRoundTripIff | ministack/core/persistence.py:97-135 | a scoped key reads back exactly when its account and region hold no NUL |
| Persistence.DiskKeysInjective | ministack/core/persistence.py:97-108 | distinct clean scoped keys never collide on disk |
| Persistence.UnsharedIff | ministack/core/persistence.py:97-108 | no other scope shares an account key, and none shares a regional key exactly when its account and region hold no NUL |
| Persistence.DiskKeysCollide | ministack/core/persistence.py:97-108 | with a NUL they can |
| Persistence.EncodesItsDefault | ministack/core/persistence.py:85-111 | a scoped dictionary or bytes is encoded as what the callback makes of it, collisions included |
| Persistence.SavedForms | ministack/core/persistence.py:97-111 | the tags, the separator and the key texts written for bytes and for scoped dictionaries |
| Persistence.TruthyIff | ministack/core/persistence.py:116-125 | a tag counts exactly when its value is none of the seven empty ones |
| Persistence.JsonDefault | ministack/core/persistence.py:85-111 | the callback's loops build the tagged dictionary |
| Persistence.JsonObjectHook | ministack/core/persistence.py:114-141 | the hook's loops restore the tagged value or raise |
| RdsCapabilities.ReplayIsInForce | ministack/core/rds_iam.py:347-376 | the registry holds a capability exactly when it was issued and neither reissued for its endpoint, revoked nor reset since |
| RdsCapabilities.OneCapabilityPerTarget | ministack/core/rds_iam.py:347-366 | each endpoint has at most one live capability |
| RdsCapabilities.GrantMeans | ministack/core/rds_iam.py:387-413 | a positive decision means the capability is in force with its binding current at the first check, the bound records stored under its endpoint and the owner enabled, and, under authentication, current again when the first authorization succeeded |
| RdsCapabilities.GrantedIff | ministack/core/rds_iam.py:387-413 | the loop grants exactly when there is a first authorization that succeeds and the binding is current after it |
| RdsCapabilities.CurrentIff | ministack/core/rds_iam.py:326-384 | a binding is current exactly when its records are those stored for its endpoint, as a lone MySQL instance, a member of an Aurora cluster or such a cluster, under the bound resource id, with the owner enabled |
| RdsCapabilities.BindableIff | ministack/core/rds_iam.py:347-356 | which endpoints can be bound, and to what |
| RdsCapabilities.Registry.Issue | ministack/core/rds_iam.py:347-366 | an issued capability is in force and is the only one for its endpoint; a refusal changes nothing |
| RdsCapabilities.Registry.Revoke | ministack/core/rds_iam.py:369-371 | the revoked capability is no longer in force, and every other stands as it did |
| RdsCapabilities.Registry.Reset | ministack/core/rds_iam.py:374-376 | no capability is in force |
| RdsCapabilities.Registry.Decide | ministack/core/rds_iam.py:387-413 | the decision loop grants exactly when the binding is current and the first authorization that succeeds finds it still current |

## Left out

- Text: characters are those below 256 where case or whitespace matters; other Unicode case folding, whitespace and digits are not modelled.
- Filter compiler: expressions are tokens, so a field name whose `#name` DynamoDB could not tokenise is not modelled; rendering a number to text is the identity on its token.
- Filter compiler: DynamoDB's comparisons themselves are parameters of the evaluation. The messages of the errors JavaScript itself raises, as for `valueOf` or `hasOwnProperty` as an operator, are not told apart.
- aws-chunked: decoding trailer values from UTF-8 with replacement is a parameter; collecting the body from the network is not modelled.
- Lambda environments: processes, sockets, log pumping, timeouts and clocks are steps that may happen at any time; payload texts are opaque.
- Lambda pool: `get_or_create_worker`, which hands out a worker without leasing it, and the spawn after acquisition are not modelled.
- IAM conditions: reading numbers, dates and addresses are parameters, and so is resolving a condition key.
- IamPrincipals.EntryMatches: an ARN with too few fields raises in `ministack/core/iam_evaluator.py`; here it matches nothing. Entries that are not texts are not modelled.
- IAM: parsing of policy documents from JSON, credentials, signatures, root callers and the service-specific branches of `enforce` are not modelled; the resolved statements are inputs.
- Node pool: pipes and JSON lines are not modelled; how a call ends is an outcome chosen by the environment. A process that outlives a broken pipe counts as live but belongs to no worker.
- Re-entrant calls: `contextvars`, `run_offloop` and resource locks are not modelled.
- Sortable ids: the clock and the random source are parameters.
- Persistence.RoundTripIff: `repr` with `literal_eval`, and base64, are assumed to be inverse pairs; tuples, non-text dictionary keys and floating-point texts are not modelled. A tagged object whose `data` is itself a scoped dictionary counts as unreadable.
- Persistence: files, format versions and migration are not modelled.
- RDS: token verification is an arbitrary result at an arbitrary moment, for any list of endpoints tried; the digest is assumed injective and tokens fresh.
- Container reaping, GraphQL, CloudFront functions and the HTTP server are wrappers over engines outside this repository.
