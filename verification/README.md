# Hawkular APM analytics core in Dafny

This project models three parts of Hawkular APM, the application performance
monitoring server, and proves properties of the model.

1. **The analytics service.** It derives the following from stored trace fragments:
   - the *bound* endpoints of a business transaction;
   - the *unbound* endpoints, meaning those not yet claimed by a business-transaction configuration;
   - the property names in use;
   - the communication summary trees.

   Unbound endpoints can be *compressed*. Path-shaped endpoints are loaded into a trie of path segments (`EndpointPart`), and any node with ten or more children collapses into a single `*` child. The trie is then flattened back into endpoint records. Every endpoint record is given an anchored regular expression and, for meta URIs, a URI template such as `/users/{userId}`.
2. **The AddContent processor action.** At initialisation it reports a missing content name as a validation issue. When it processes a node, it stores the evaluated value as named content of the node's in or out message.
3. **The pipeline processor defaults.** There is no set-up or tear-down per batch, delivery happens without delay, and a failed batch is retried after 1000 ms.

## Layout

| file | module | contents |
|---|---|---|
| `wrappers.dfy` | `Wrappers` | `Option` (Java `null`) and `Outcome` (a value or the name of a thrown exception) |
| `seq_facts.dfy` | `SeqFacts` | general sequence facts |
| `ordering.dfy` | `Ordering` | `String.compareTo` order, sorted map keys, and the stable sort behind `Collections.sort` |
| `java_strings.dfy` | `JavaStrings` | `trim`, `String.split` with its dropping of trailing empty strings, and decimal numerals |
| `apm_model.dfy` | `ApmModel` | the entities: endpoint records, trace nodes, messages, traces, communication summaries, configurations, and the endpoint codec |
| `endpoint_tree.dfy` | `EndpointTree` | `EndpointPart` with `addChild`, `merge`, `collapse` and `extractEndpointInfo`, plus `buildTree` |
| `endpoint_metadata.dfy` | `EndpointMetadata` | `createRegex`, the URI template, and `initEndpointInfo` |
| `endpoint_compression.dfy` | `EndpointCompression` | `compressEndpointInfo` |
| `endpoint_queries.dfy` | `EndpointQueries` | `getBoundEndpoints`, `obtainEndpoints`, `doGetUnboundEndpoints`, `obtainProducerEndpoints` |
| `property_info.dfy` | `PropertyInfos` | `getPropertyInfo` |
| `communication.dfy` | `Communication` | `hasMetrics` and `getCommunicationSummaryStatistics` |
| `add_content.dfy` | `AddContent` | `AddContentActionHandler` |
| `processor.dfy` | `Processors` | `AbstractProcessor` defaults |

### How the Java is represented

Operations written as loops are Dafny methods with loops. Each is proved equal to a specification function, and the lemmas are proved about that function. The exceptions are `EndpointPart.merge` and `collapse`: their loops over the children update the trie in place, and they are the functions `EndpointTree.Merge`, `EndpointTree.MergeAll` and `EndpointTree.Collapse` over the trie as a value.

- The trie and the endpoint records are values. An operation returns the new trie or record instead of updating it.
- The handler is a class whose issue list is a field.

### Collaborators

Collaborators whose source is not part of this model are parameters:

- `EndpointUtil.encodeEndpoint`, `decodeEndpointURI` and `decodeEndpointOperation`, and `EndpointInfo.metaURI` are fields of `EndpointCodec`.
- `Pattern.matches` is a function parameter.
- The severity analyser and the tree builder are functions from summaries to summaries.
- The configuration service is an optional sequence of configurations (`None` when there is no service).
- `super.init`, `super.process` and `getValue` are an issue-list transformer, a boolean and an optional string.
- Fragments are given as a sequence, standing for what `getFragments` delivered.

### Behaviour worth noting

- `createRegex` turns `*` into `.*`: it appends `.` and then the character itself.
- The template of `/users/*` is `/users/{userId}`: every literal segment is copied, and a `*` after a literal becomes the literal's singular plus `Id`.
- A path-shaped endpoint made only of slashes, such as `//`, is not treated as an opaque endpoint. `String.split` returns no segment for it, and `buildTree` then reads `parts[1]`, so `compressEndpointInfo` throws `ArrayIndexOutOfBoundsException`. This is modelled as `Outcome.Thrown`.
- The pruning after tree building removes only top-level trees without metrics. Empty subtrees inside a kept tree stay.
- In `buildTree` the endpoint type is set on the last node even when it is `null`, so the last endpoint recorded under the same segments decides the type.

## Model

| member | source | states |
|---|---|---|
| EndpointTree.AddChild | api/src/main/java/org/hawkular/apm/api/services/AbstractAnalyticsService.java:602-618 | An absent name gets a fresh child with count 1. A present name has its child's count raised by exactly 1. The returned child is the one stored under the name. No other child and none of the node's own fields change. |
| EndpointTree.Merge | api/src/main/java/org/hawkular/apm/api/services/AbstractAnalyticsService.java:649-671 | The counts add up. The type is kept if set, else taken from the merged part. The keys are the union of both key sets. Children under only one key are carried over unchanged. |
| EndpointTree.MergeShared | api/src/main/java/org/hawkular/apm/api/services/AbstractAnalyticsService.java:661-665 | A child under a key both parts have is the recursive merge of the two children. |
| EndpointTree.MergeAssociative | api/src/main/java/org/hawkular/apm/api/services/AbstractAnalyticsService.java:649-671 | Merging is associative, so folding the children in any grouping gives the same part. |
| EndpointTree.MergeAllFacts | api/src/main/java/org/hawkular/apm/api/services/AbstractAnalyticsService.java:626-629 | Folding parts into one gives these results: the count is the sum of the counts; the keys are the union of the keys; the type is the first type met. |
| EndpointTree.FirstTypeFacts | api/src/main/java/org/hawkular/apm/api/services/AbstractAnalyticsService.java:650-652 | A folded type is present exactly when some folded part has a type, and it is one of theirs. |
| EndpointTree.MergeHeight | api/src/main/java/org/hawkular/apm/api/services/AbstractAnalyticsService.java:649-671 | Merging never makes a trie deeper than its deeper input. This bounds the recursion of collapse. |
| EndpointTree.Collapse | api/src/main/java/org/hawkular/apm/api/services/AbstractAnalyticsService.java:623-641 | The node's own count, type and qualifier stay. With at least 10 children the keys become exactly `{"*"}`; with fewer, the keys stay. |
| EndpointTree.CollapseWildcard | api/src/main/java/org/hawkular/apm/api/services/AbstractAnalyticsService.java:625-632 | The `*` child has count 1 plus the sum of the former children's counts. It is not a qualifier. It has a type exactly when a former child had one, and then it is one of theirs. |
| EndpointTree.WildcardKeys | api/src/main/java/org/hawkular/apm/api/services/AbstractAnalyticsService.java:627-629 | The merged node's keys, before it is collapsed in turn, are exactly the keys of the former grandchildren. |
| EndpointTree.MergeTypedAt | api/src/main/java/org/hawkular/apm/api/services/AbstractAnalyticsService.java:649-671 | A merge has a typed node at a path exactly when one of the two parts has one there. |
| EndpointTree.MergeAllTypedAt | api/src/main/java/org/hawkular/apm/api/services/AbstractAnalyticsService.java:626-629 | Folding parts into one gives a typed node at a path exactly when the start or one of the parts has one there. |
| EndpointTree.WildcardTypedAt | api/src/main/java/org/hawkular/apm/api/services/AbstractAnalyticsService.java:625-629 | The merged node of a dense level has a typed node at a path exactly when one of the former children has one there. |
| EndpointTree.CollapseKeepsTyped | api/src/main/java/org/hawkular/apm/api/services/AbstractAnalyticsService.java:623-641 | Every typed node survives collapse. It is found at the same path, except that the key of a level that collapsed may now read `*`. |
| EndpointTree.CollapseTypedFrom | api/src/main/java/org/hawkular/apm/api/services/AbstractAnalyticsService.java:623-641 | Collapse makes up no typed node. Each typed node afterwards is at the path of a former typed node, with some keys read as `*`. |
| EndpointTree.DenseLeavesCollapse | api/src/main/java/org/hawkular/apm/api/services/AbstractAnalyticsService.java:625-632 | A level of 10 or more typed leaves of one type is read out as the node's own record, if any, followed by one record for the `*` child with that type. |
| EndpointTree.TenUsersCollapse | api/src/main/java/org/hawkular/apm/api/services/AbstractAnalyticsService.java:623-641 | The trie of `/users/0` to `/users/9`, all of one type, is read out after collapse as the single record `/users/*` with that type. |
| EndpointTree.CollapseSparse | api/src/main/java/org/hawkular/apm/api/services/AbstractAnalyticsService.java:634-638 | Below the threshold, each child is replaced by its own collapse. |
| EndpointTree.CollapseIsCompact | api/src/main/java/org/hawkular/apm/api/services/AbstractAnalyticsService.java:623-641 | After collapsing, no node anywhere has 10 or more children. |
| EndpointTree.CollapseCompactIsIdentity | api/src/main/java/org/hawkular/apm/api/services/AbstractAnalyticsService.java:623-641 | Collapsing a trie without crowded nodes changes nothing. |
| EndpointTree.CollapseIdempotent | api/src/main/java/org/hawkular/apm/api/services/AbstractAnalyticsService.java:623-641 | Collapsing twice equals collapsing once. |
| EndpointTree.PathCons | api/src/main/java/org/hawkular/apm/api/services/AbstractAnalyticsService.java:688-692 | A child's endpoint string is the parent's string plus `/` and the key, with no `/` for a qualifier child. |
| EndpointTree.ExtractEndpointInfo | api/src/main/java/org/hawkular/apm/api/services/AbstractAnalyticsService.java:679-695 | The method appends exactly the specified extraction of the trie to the caller's list. |
| EndpointTree.ExtractAll | api/src/main/java/org/hawkular/apm/api/services/AbstractAnalyticsService.java:255-261 | The static `extractEndpointInfo` returns the extraction of the root from the empty string. |
| EndpointTree.ExtractRenders | api/src/main/java/org/hawkular/apm/api/services/AbstractAnalyticsService.java:679-695 | Each extracted record is at a path of the trie. It carries that node's type, and its endpoint is the rendered path. |
| EndpointTree.TypedPathsIff | api/src/main/java/org/hawkular/apm/api/services/AbstractAnalyticsService.java:681-686 | A record is extracted for a path exactly when the path exists and its node has a type. |
| EndpointTree.TypedPathsDistinct | api/src/main/java/org/hawkular/apm/api/services/AbstractAnalyticsService.java:679-695 | No node is extracted twice. |
| EndpointTree.InsertReaches | api/src/main/java/org/hawkular/apm/api/services/AbstractAnalyticsService.java:224-247 | After inserting a path, the path exists. Its last node carries the given type and, for an operation, the qualifier mark. |
| EndpointTree.InsertCounts | api/src/main/java/org/hawkular/apm/api/services/AbstractAnalyticsService.java:233-238 | Every node along the path has its count raised by 1, or is new with count 1. Nodes passed through keep their type and qualifier; new ones have neither. |
| EndpointTree.InsertKeepsOthers | api/src/main/java/org/hawkular/apm/api/services/AbstractAnalyticsService.java:224-247 | A node off the inserted path is unchanged. |
| EndpointTree.InsertKeepsPaths | api/src/main/java/org/hawkular/apm/api/services/AbstractAnalyticsService.java:224-247 | Inserting removes no existing path. |
| EndpointTree.BuildTreeInserts | api/src/main/java/org/hawkular/apm/api/services/AbstractAnalyticsService.java:224-247 | `buildTree` inserts the segments from index 1, with the last one decoded into URI and operation. An operation becomes a qualifier child, and the last node receives the type. |
| EndpointMetadata.CreateRegex | api/src/main/java/org/hawkular/apm/api/services/AbstractAnalyticsService.java:533-551 | The loop builds `^`, then the escaped endpoint, then `$`, whatever `meta` is. |
| EndpointMetadata.EscapedAppend | api/src/main/java/org/hawkular/apm/api/services/AbstractAnalyticsService.java:538-546 | Escaping works character by character, so it distributes over concatenation. |
| EndpointMetadata.UnescapeEscaped | api/src/main/java/org/hawkular/apm/api/services/AbstractAnalyticsService.java:538-546 | Removing the added `\` and the `.` before `*` gives back the endpoint. The characters are kept in order and none is lost. |
| EndpointMetadata.EscapedLength | api/src/main/java/org/hawkular/apm/api/services/AbstractAnalyticsService.java:538-546 | The escaped text is never shorter than the input. It is the same length exactly when the input has no `*` and no character of `\.^$\|?+[]{}()`. |
| EndpointMetadata.RegexExample | api/src/main/java/org/hawkular/apm/api/services/AbstractAnalyticsService.java:533-551 | `/a.b/*` becomes `^/a\.b/.*$`. |
| EndpointMetadata.Singular | api/src/main/java/org/hawkular/apm/api/services/AbstractAnalyticsService.java:304-306 | A name longer than one character that ends in `s` loses exactly that `s`. Any other name is kept. |
| EndpointMetadata.AppendSegment | api/src/main/java/org/hawkular/apm/api/services/AbstractAnalyticsService.java:292-316 | One turn of the template loop performs exactly one template step. |
| EndpointMetadata.BuildUriTemplate | api/src/main/java/org/hawkular/apm/api/services/AbstractAnalyticsService.java:283-319 | The loop builds exactly the URI template of the decoded URI. |
| EndpointMetadata.TemplateClosedForm | api/src/main/java/org/hawkular/apm/api/services/AbstractAnalyticsService.java:292-316 | The template so far is the `/`-joined segments. A literal is copied. A `*` right after a literal becomes `{<singular>Id}`; any other `*` becomes `{paramN}`, with N the count of such wildcards so far plus 1. The literal state resets after each `*`. |
| EndpointMetadata.LiteralTemplate | api/src/main/java/org/hawkular/apm/api/services/AbstractAnalyticsService.java:292-316 | Without wildcards the template is the URI's segments joined back with `/`. |
| EndpointMetadata.TemplateExampleUsers | api/src/main/java/org/hawkular/apm/api/services/AbstractAnalyticsService.java:283-319 | `/users/*` gives `/users/{userId}`. |
| EndpointMetadata.InitEndpointInfo | api/src/main/java/org/hawkular/apm/api/services/AbstractAnalyticsService.java:279-320 | The record gets the regex of its endpoint and the regex of its decoded URI, plus a template for meta URIs. |
| EndpointMetadata.InitialisedFacts | api/src/main/java/org/hawkular/apm/api/services/AbstractAnalyticsService.java:279-320 | Endpoint and type stay. Both regexes are anchored and unescape to the endpoint and to its URI. A meta URI gets the template of its URI; otherwise the template stays as it was. |
| EndpointMetadata.InitEndpointInfos | api/src/main/java/org/hawkular/apm/api/services/AbstractAnalyticsService.java:268-272 | Every record of the list, and no other, is initialised, in order. |
| EndpointCompression.CompressEndpointInfo | api/src/main/java/org/hawkular/apm/api/services/AbstractAnalyticsService.java:177-214 | The loop returns or throws exactly what the specified compression does. |
| EndpointCompression.GatherThrowsIff | api/src/main/java/org/hawkular/apm/api/services/AbstractAnalyticsService.java:184-190 | Compression throws `ArrayIndexOutOfBoundsException` exactly when some path-shaped endpoint consists only of slashes. |
| EndpointCompression.GatherOthers | api/src/main/java/org/hawkular/apm/api/services/AbstractAnalyticsService.java:192-194 | The opaque endpoints are kept aside in their original order. Opaque means no leading `/`, or not longer than one character. |
| EndpointCompression.GatherRoot | api/src/main/java/org/hawkular/apm/api/services/AbstractAnalyticsService.java:180 | The root part keeps count 1, no type and no qualifier mark. |
| EndpointCompression.GatherRecords | api/src/main/java/org/hawkular/apm/api/services/AbstractAnalyticsService.java:181-195 | Every path-shaped endpoint is recorded at its segments. That node carries its type unless a later endpoint is recorded at the same segments. |
| EndpointCompression.CompressNonPaths | api/src/main/java/org/hawkular/apm/api/services/AbstractAnalyticsService.java:200-211 | Without path-shaped endpoints, the result is the input list, initialised. |
| EndpointCompression.CompressedLayout | api/src/main/java/org/hawkular/apm/api/services/AbstractAnalyticsService.java:200-211 | The result is the extraction of the collapsed trie followed by the opaque endpoints, all initialised. The trie part is empty when there were no path endpoints. |
| EndpointCompression.TypedExtracts | api/src/main/java/org/hawkular/apm/api/services/AbstractAnalyticsService.java:679-695 | Every typed node of a trie is read out with its type under its rendered path. |
| EndpointCompression.CompressKeepsCollapsed | api/src/main/java/org/hawkular/apm/api/services/AbstractAnalyticsService.java:177-214 | With or without collapsed levels, take a typed path endpoint that no later endpoint overwrites. The result holds a typed, initialised record for it. That record renders its keys in the collapsed trie, where the key of each collapsed level may read `*`. |
| EndpointCompression.CompressKeepsRecorded | api/src/main/java/org/hawkular/apm/api/services/AbstractAnalyticsService.java:177-214 | Take a typed path endpoint that no later endpoint overwrites, in a trie that collapsing leaves alone. The result then holds that endpoint as rendered from the trie, with its type, initialised. |
| EndpointQueries.ObtainEndpoints | api/src/main/java/org/hawkular/apm/api/services/AbstractAnalyticsService.java:474-492 | The recursive loop leaves exactly the specified list. |
| EndpointQueries.ObtainedExtends | api/src/main/java/org/hawkular/apm/api/services/AbstractAnalyticsService.java:474-492 | The method only appends. Each appended record is untyped and initialised. |
| EndpointQueries.ObtainedEndpoints | api/src/main/java/org/hawkular/apm/api/services/AbstractAnalyticsService.java:474-492 | The endpoints afterwards are the earlier ones plus the encoded endpoint of every node with a URI, at any depth. |
| EndpointQueries.ObtainedDistinct | api/src/main/java/org/hawkular/apm/api/services/AbstractAnalyticsService.java:482-485 | The check on `contains` keeps every endpoint listed once. |
| EndpointQueries.GetBoundEndpoints | api/src/main/java/org/hawkular/apm/api/services/AbstractAnalyticsService.java:108-125 | The fragment loop returns exactly the specified bound endpoints. |
| EndpointQueries.BoundEndpointsCover | api/src/main/java/org/hawkular/apm/api/services/AbstractAnalyticsService.java:108-125 | The bound endpoints are exactly the endpoints of the nodes with a URI in any fragment. |
| EndpointQueries.BoundEndpointsDistinct | api/src/main/java/org/hawkular/apm/api/services/AbstractAnalyticsService.java:108-125 | Each bound endpoint is listed once, untyped and initialised. |
| EndpointQueries.ObtainProducerEndpoints | api/src/main/java/org/hawkular/apm/api/services/AbstractAnalyticsService.java:502-523 | The recursive loop leaves exactly the specified list and map. |
| EndpointQueries.ProducersFacts | api/src/main/java/org/hawkular/apm/api/services/AbstractAnalyticsService.java:502-523 | The map keeps knowing exactly the listed endpoints, and none is listed twice. Every producer's endpoint, at any depth, is added. |
| EndpointQueries.UnboundFacts | api/src/main/java/org/hawkular/apm/api/services/AbstractAnalyticsService.java:401-428 | Only initial fragments with nodes and no business transaction count. For them, the collected endpoints are exactly the root consumer's endpoint when it did not fault, or else every producer's. |
| EndpointQueries.RemoveMatching | api/src/main/java/org/hawkular/apm/api/services/AbstractAnalyticsService.java:440-446 | The iterator removes exactly the records the pattern matches, keeping the order. |
| EndpointQueries.RemoveConfigured | api/src/main/java/org/hawkular/apm/api/services/AbstractAnalyticsService.java:430-452 | Only configurations with a filter with inclusions count. Of their inclusions, only the non-null, non-blank ones are applied, in order. |
| EndpointQueries.UnmatchedIff | api/src/main/java/org/hawkular/apm/api/services/AbstractAnalyticsService.java:430-452 | A record survives exactly when it was collected and no applied pattern matches its endpoint. |
| EndpointQueries.UnboundEndpoints | api/src/main/java/org/hawkular/apm/api/services/AbstractAnalyticsService.java:453-465 | A returned list is sorted by endpoint. Without compression it is a permutation of the filtered list. With compression it is returned exactly when compressing the filtered list succeeds, and then it is a permutation of the compressed records. |
| EndpointQueries.DoGetUnboundEndpoints | api/src/main/java/org/hawkular/apm/api/services/AbstractAnalyticsService.java:395-466 | The method returns or throws exactly what the specified query does. |
| EndpointQueries.UnboundUncompressedIff | api/src/main/java/org/hawkular/apm/api/services/AbstractAnalyticsService.java:395-466 | Without compression, each endpoint is listed once. An endpoint is listed exactly when it is a candidate of some fragment and no applied pattern matches it. |
| EndpointQueries.UnboundCompressedKeeps | api/src/main/java/org/hawkular/apm/api/services/AbstractAnalyticsService.java:453-463 | With compression, a remaining typed path endpoint that no later one overwrites is listed, typed and initialised. It appears under its keys, with the key of each collapsed level possibly read as `*`. |
| EndpointQueries.UnboundCompressedThrows | api/src/main/java/org/hawkular/apm/api/services/AbstractAnalyticsService.java:454-456 | With compression the query throws exactly when a remaining endpoint is a path of slashes only. |
| Ordering.LexLeIsUtf16Order | api/src/main/java/org/hawkular/apm/api/services/AbstractAnalyticsService.java:458-463 | The order the sorts use is exactly the lexicographic order of the UTF-16 code units, which is how `String.compareTo` compares. |
| Ordering.SortByStable | api/src/main/java/org/hawkular/apm/api/services/AbstractAnalyticsService.java:152-157 | The sort is stable: the records with any one key keep their input order, as `Collections.sort` keeps them. |
| PropertyInfos.GetPropertyInfo | api/src/main/java/org/hawkular/apm/api/services/AbstractAnalyticsService.java:131-160 | The nested loops and the sort return exactly the specified listing. |
| PropertyInfos.PropertyInfoSorted | api/src/main/java/org/hawkular/apm/api/services/AbstractAnalyticsService.java:151-156 | The listing is in ascending name order, with no name twice. |
| PropertyInfos.PropertyInfoIff | api/src/main/java/org/hawkular/apm/api/services/AbstractAnalyticsService.java:138-149 | A name is listed exactly when some fragment has a property with that name. |
| PropertyInfos.PropertyInfoExample | api/src/main/java/org/hawkular/apm/api/services/AbstractAnalyticsService.java:131-160 | Properties `region`, `region`, `env` give `env`, `region`. |
| Communication.HasMetrics | api/src/main/java/org/hawkular/apm/api/services/AbstractAnalyticsService.java:359-374 | True exactly when the node has a count, or some outbound connection has a count, or leads to a node with metrics, at any depth. |
| Communication.RemoveUnmetered | api/src/main/java/org/hawkular/apm/api/services/AbstractAnalyticsService.java:337-345 | The iterator keeps exactly the trees with metrics, in order. |
| Communication.KeepMeteredIff | api/src/main/java/org/hawkular/apm/api/services/AbstractAnalyticsService.java:337-345 | A tree survives exactly when it was there and has metrics. |
| Communication.KeepMeteredIdempotent | api/src/main/java/org/hawkular/apm/api/services/AbstractAnalyticsService.java:337-345 | Pruning a pruned list removes nothing more. |
| Communication.GetCommunicationSummaryStatistics | api/src/main/java/org/hawkular/apm/api/services/AbstractAnalyticsService.java:327-350 | The summaries are evaluated for severity and, as trees, built; they are pruned only for node-specific queries. |
| Communication.SummaryStatisticsPrunes | api/src/main/java/org/hawkular/apm/api/services/AbstractAnalyticsService.java:334-347 | A node-specific tree query returns exactly the built trees with metrics. The flat form is returned whole. |
| AddContent.AddContentActionHandler.Init | api/src/main/java/org/hawkular/apm/api/internal/actions/AddContentActionHandler.java:62-80 | After `super.init`, a null or blank name puts one issue at index 0, creating the list if it was null. The issue has field `name`, severity `Error` and description `Name must be specified`. Otherwise the list is left alone. |
| AddContent.InitIssues | api/src/main/java/org/hawkular/apm/api/internal/actions/AddContentActionHandler.java:67-78 | A missing name adds exactly one issue. A present name leaves the issues as they were. |
| AddContent.InitIssuesReports | api/src/main/java/org/hawkular/apm/api/internal/actions/AddContentActionHandler.java:67-78 | The list starts with the missing-name issue and grows by one exactly when the name is missing. The earlier issues then follow in order. |
| AddContent.AddContentActionHandler.Process | api/src/main/java/org/hawkular/apm/api/internal/actions/AddContentActionHandler.java:88-116 | Content is added exactly when `super.process` succeeded, the value is non-null and the node is an interaction node. Direction In goes to the in-message and any other direction to the out-message. Otherwise the node is returned unchanged. |
| AddContent.WithContentAppends | api/src/main/java/org/hawkular/apm/api/internal/actions/AddContentActionHandler.java:94-108 | The chosen message is created if absent, and the content `(name, type, value)` is appended after what was there. The other message and the rest of the node are untouched. |
| Processors.DefaultDelays | server/api/src/main/java/org/hawkular/apm/server/api/task/AbstractProcessor.java:29-52 | The delivery delay is 0 and the retry delay 1000 for every batch. |
| Processors.DefaultHooksKeepState | server/api/src/main/java/org/hawkular/apm/server/api/task/AbstractProcessor.java:35-59 | The default `initialise` and `cleanup` change no state. |
| Processors.LifecycleKeepsState | server/api/src/main/java/org/hawkular/apm/server/api/task/AbstractProcessor.java:35-59 | A batch bracketed by the default hooks leaves the state as it was. |

## Left out

- In-place update and aliasing: `EndpointPart`, `EndpointInfo`, `Node` and `Message` are values, and each operation returns the updated value. `merge` moves subtrees by reference, and the donor trie is not used afterwards, so values give the same trees. Sharing between callers is not modelled.
- HashMap iteration order: maps are visited in ascending key order. The order of `extractEndpointInfo`'s output, and of the `configs.values()` loop, is therefore one particular order. The same order decides which former child's type the `*` child of a collapsed level inherits (the first typed one); `EndpointTree.CollapseWildcard` promises only that it is one of theirs.
- Unpaired surrogates: a Dafny `string` holds Unicode scalar values, so Java strings with an unpaired surrogate have no counterpart. For every other string `Ordering.LexLe` is exactly `String.compareTo`'s order of UTF-16 code units.
- `EndpointUtil`, `EndpointInfo.metaURI`, `Pattern.matches`, `CommunicationSeverityAnalyser` and `CommunicationSummaryTreeBuilder` are not part of this model; they are function parameters with no properties assumed.
- `ExpressionBasedActionHandler` is not part of this model. `super.init`, `super.process` and `getValue` are inputs.
- `Message.java` is not part of this model. `Message.addContent` is taken as an append of one content record.
- `EndpointInfo.java` is not part of this model. Its `equals`, used by `contains` in `obtainEndpoints`, is taken to compare endpoints, and the copy constructor to copy every field.
- A `null` endpoint string is not modelled. `compressEndpointInfo` would keep it as opaque, and `createRegex` would then fail on it.
- `getFragments`, `doGetCommunicationSummaryStatistics`, the tenant and the criteria are storage collaborators. Their results are inputs.
- Logging, CDI injection and the REST, JMS and UI files are not modelled.
- Java `int` overflow of `EndpointPart.count` is not modelled. Counts are unbounded.
- `ProcessorIssue.processor` and `.action` come from the processor's and the action's descriptions, which are given as optional strings. `Severity` has only the value used here.
- `Processors.DefaultDelays`: `long` results are unbounded integers, which is exact for the constants 0 and 1000.
- `Processors.DefaultHooksKeepState`: a processor's per-batch state is a type parameter, since the defaults touch none.
