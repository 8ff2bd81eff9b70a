# continuum: the memory layer and the prompt composer, in Dafny

Continuum keeps a long-term memory for each user of an AI assistant. A memory is
a piece of text stored with its owner, a source, and optionally a type, topic,
tags and importance. When the user asks something, Continuum ranks that user's
memories by how many query words they contain. It then turns the best of them
into a prompt: five typed sections between fixed CONTEXT markers, followed by
the task.

This project models the services at the core of the Java backend and proves
properties of them. The modules are:

- `Text`: ASCII versions of the `java.lang.String` operations the services call.
  These are `toLowerCase`, `trim`, `isBlank`, `equalsIgnoreCase`, `contains`,
  `split("\\s+")` and integer rendering.
- `Seqs` and `StableSort`: Java stream filtering, and `Stream.sorted`, modelled
  as a stable insertion sort over a comparator.
- `Repository`: a JPA repository, modelled as the sequence of its rows with an
  id column. It offers `existsById`, `findById`, `save` and `deleteById`.
- `Scoring`: the keyword score, shared by both memory services.
- `Memories`: the memory service of package `com.continuum.memory`. It covers
  creation with a default type and supersession of older preferences, update,
  lookup, deletion, and ranking with a recency tie-break.
- `ApiMemories`: the older memory service of package `com.continuum.api`. It ranks
  without a tie-break and does plain create, update and delete.
- `Users` and `ApiUsers`: the two user services. Both keep usernames and emails
  unique. The rules are stated once, as functions in `Users`; each class carries
  them out on its own table.
- `Prompts`: `buildPrompt`, `dedupeByContent` and `generatePrompt` of
  `PromptService`.

Services are classes. Each holds the table its repository stands for, a
`seq` field that its methods reassign. Each method is proved against a function
of the old table, and the lemmas about that function state the rules:

- Creating a preference retires the active preferences it supersedes.
- At most one active preference per user and topic is kept.
- The unique columns stay unique.
- The ranking is a stable permutation with scores non-increasing.
- The prompt has its fixed layout.

The loops of the source are methods with loop invariants. These are
`score`, `createMemory`'s supersession loop, `dedupeByContent` and `renderSection`.

Three behaviours of the code worth noting:

- `generatePrompt` calls `queryContext` with four arguments. The memory service
  only declares three: `userId`, `query`, `limit`. The model uses the
  three-argument version and drops `workspaceId`.
- One might expect the contents "buy milk", "buy milk and eggs" and
  "unrelated" to score 2, 1, 0 for the query "buy milk". The code scores them
  2, 2, 0, because both query words occur in the second content. The model
  follows the code: `Scoring.FullScore` shows that a content containing every
  query term gets full marks, however much else it holds.
- `updateMemory` may give a memory to another user. That can leave that user
  with two active preferences on one topic, even though `createMemory` works to
  prevent this. `Memories.UpdateCanBreakOneActivePreference` shows it happens.
  The model keeps the code's behaviour.

## Model

Paths are under `backend/src/main/java/com/continuum/`.

| member | source | states |
|---|---|---|
| Text.ToLower | backend/src/main/java/com/continuum/memory/MemoryService.java:129 | The result has the input's length; each character is the ASCII lower-case form of the character at the same position |
| Text.Trim | backend/src/main/java/com/continuum/prompt/PromptService.java:147 | The result is a contiguous slice of the input. Everything before and after it is a character at most U+0020. The result is empty or starts and ends with a character above U+0020 |
| Text.ContainsAt | backend/src/main/java/com/continuum/memory/MemoryService.java:132 | `contains(s, t)` holds exactly when t occurs at some position of s |
| Text.Split | backend/src/main/java/com/continuum/memory/MemoryService.java:101 | No term of `split("\\s+")` holds a white-space character |
| Text.SplitNoSpace | backend/src/main/java/com/continuum/memory/MemoryService.java:101 | A string without white space, the empty one included, splits into itself alone |
| Text.SplitAllSpace | backend/src/main/java/com/continuum/memory/MemoryService.java:101 | A non-empty string of white space only splits into no term: the empty pieces are trailing and dropped |
| Text.SplitWord | backend/src/main/java/com/continuum/memory/MemoryService.java:101 | A word, then a run of white space, then a rest starting with a word: the terms are the word followed by the terms of the rest |
| Text.SplitTrailingSpace | backend/src/main/java/com/continuum/memory/MemoryService.java:101 | A word followed by white space splits into the word alone |
| Text.SplitLeadingRun | backend/src/main/java/com/continuum/memory/MemoryService.java:101 | White space before a word gives an empty first term, then the terms of the rest |
| Text.SplitLeadingSpace | backend/src/main/java/com/continuum/memory/MemoryService.java:101 | A query that starts with white space and holds a word splits into an empty first term followed by more terms |
| Text.NatToString | backend/src/main/java/com/continuum/prompt/PromptService.java:92 | The number appended to an entry is a non-empty string of decimal digits |
| Text.NatToStringValue | backend/src/main/java/com/continuum/prompt/PromptService.java:92 | The digits spell the number in decimal, and only zero starts with '0': the rendering of StringBuilder.append(int) for n >= 0 |
| Seqs.Take | backend/src/main/java/com/continuum/memory/MemoryService.java:118 | `limit(n)` keeps a prefix of length min(n, size) |
| StableSort.Sort | backend/src/main/java/com/continuum/memory/MemoryService.java:105-117 | Sorting keeps the length and the multiset of elements: only the order changes |
| StableSort.SortOrdered | backend/src/main/java/com/continuum/memory/MemoryService.java:106-117 | Under a strict weak order, no element ends up after one the comparator puts before it |
| StableSort.SortDescending | backend/src/main/java/com/continuum/api/MemoryService.java:79-83 | A comparator that ranks by a key leaves the keys non-increasing, whatever it does on equal keys |
| StableSort.SortStable | backend/src/main/java/com/continuum/memory/MemoryService.java:105-117 | Elements none of which the comparator puts before another keep their input order |
| Repository.FindById | backend/src/main/java/com/continuum/memory/MemoryService.java:69-74 | `findById` is empty exactly when no row has the id; otherwise it is a stored row with that id |
| Repository.SaveExisting | backend/src/main/java/com/continuum/memory/MemoryService.java:79 | Saving a row whose id is stored overwrites exactly that row and keeps the ids unique |
| Repository.SaveNew | backend/src/main/java/com/continuum/memory/MemoryService.java:62 | Saving a row with a new id appends it and keeps the ids unique |
| Repository.DeleteExisting | backend/src/main/java/com/continuum/memory/MemoryService.java:153 | `deleteById` drops one row, exactly the one with the id, and keeps the ids unique |
| Repository.DeleteKeepsUnique | backend/src/main/java/com/continuum/user/UserService.java:111 | Deleting keeps every column unique that was unique before |
| Scoring.Score | backend/src/main/java/com/continuum/memory/MemoryService.java:125-137 | The counting loop returns the number of non-empty terms, repeats counted, contained in the lower-cased content; null content scores 0. The copy at api/MemoryService.java:90-102 is the same |
| Scoring.ScoreBounds | backend/src/main/java/com/continuum/memory/MemoryService.java:125-137 | Every score lies between 0 and the number of terms, and null content scores 0 |
| Scoring.ScoreConcat | backend/src/main/java/com/continuum/memory/MemoryService.java:131-135 | The score adds up over the parts of the term list |
| Scoring.ScoreRepeated | backend/src/main/java/com/continuum/memory/MemoryService.java:131-135 | Repeating the query doubles every score: repeated terms are not de-duplicated |
| Scoring.EmptyTermIgnored | backend/src/main/java/com/continuum/memory/MemoryService.java:132 | The empty term that split leaves at the front of a query starting with a space scores nothing |
| Scoring.FullScore | backend/src/main/java/com/continuum/memory/MemoryService.java:131-135 | Full marks exactly when every term is non-empty and occurs in the lower-cased content |
| Memories.ToResponse | backend/src/main/java/com/continuum/memory/MemoryService.java:19-31 | The response never carries a workspace |
| Memories.ResponseForgets | backend/src/main/java/com/continuum/memory/MemoryService.java:19-31 | Two rows give the same response exactly when they differ at most in supersededById and createdAt, the columns toResponse drops |
| Memories.ToResponses | backend/src/main/java/com/continuum/memory/MemoryService.java:119 | The i-th response is the response of the i-th row |
| Memories.QueryContext | backend/src/main/java/com/continuum/memory/MemoryService.java:99-121 | A negative limit fails. Otherwise the result has min(limit, rows of the user) elements, and the i-th is the response of the i-th ranked row (see "## Left out" for mixed timestamps) |
| Memories.RankedIsPermutation | backend/src/main/java/com/continuum/memory/MemoryService.java:103-117 | The ranking is a permutation of the user's rows: nothing is added, dropped or repeated, and nothing of another user appears |
| Memories.RankedByScore | backend/src/main/java/com/continuum/memory/MemoryService.java:106-111 | Scores never increase along the ranking |
| Memories.RankedNewerFirst | backend/src/main/java/com/continuum/memory/MemoryService.java:106-116 | When all the user's rows have timestamps, equal scores come newest first |
| Memories.RankedStable | backend/src/main/java/com/continuum/memory/MemoryService.java:105-117 | Rows with equal score and equal (or both missing) timestamps keep their storage order under the model's stable sort (see "## Left out" for mixed timestamps) |
| Memories.PreferenceKindIgnoresCase | backend/src/main/java/com/continuum/memory/MemoryService.java:47 | The preference test is `"PREFERENCE".equalsIgnoreCase(type)` |
| Memories.NewMemory | backend/src/main/java/com/continuum/memory/MemoryService.java:35-43 | The new row is active and superseded by nobody. A null or blank type becomes "OTHER"; any other type is kept verbatim. The id, timestamp, user, source, content, topic, tags and importance are the given ones |
| Memories.Supersede | backend/src/main/java/com/continuum/memory/MemoryService.java:47-60 | Supersession keeps the number of rows; what it changes is stated by CreatedRows |
| Memories.CreatedRows | backend/src/main/java/com/continuum/memory/MemoryService.java:45-62 | The new row is appended. An old row changes only when the new one is a preference with a non-blank topic and the old one is an active preference of the same user with the same topic; it is then deactivated and points at the new id, and its other columns stay |
| Memories.CreatePreservesOneActivePreference | backend/src/main/java/com/continuum/memory/MemoryService.java:45-62 | If at most one active preference per (user, topic) existed before creation, the same holds after |
| Memories.CreatedPreferenceIsOnlyActive | backend/src/main/java/com/continuum/memory/MemoryService.java:47-62 | A created preference with a topic is the only active preference of its user on that topic |
| Memories.SupersessionNeverRepoints | backend/src/main/java/com/continuum/memory/MemoryService.java:48-59 | A row that already names its successor is never changed again |
| Memories.CreatedKeepsRetiredInactive | backend/src/main/java/com/continuum/memory/MemoryService.java:55-62 | Every row that names a successor stays inactive |
| Memories.RetireStep | backend/src/main/java/com/continuum/memory/MemoryService.java:55-59 | One turn of the loop retires the next stale row and touches no other row |
| Memories.RetiredAll | backend/src/main/java/com/continuum/memory/MemoryService.java:48-59 | After the loop the table is the superseded table: every stale row and only those is retired |
| Memories.StaleMember | backend/src/main/java/com/continuum/memory/MemoryService.java:48-53 | The rows the filter collects are the active preferences of the user with the new row's exact topic |
| Memories.SupersedeKeepsIds | backend/src/main/java/com/continuum/memory/MemoryService.java:55-59 | Supersession changes no id, so the ids stay unique |
| Memories.CreatedIsValid | backend/src/main/java/com/continuum/memory/MemoryService.java:62 | The final save appends the new row, and the table keeps unique ids and inactive retired rows |
| Memories.UpdatedRows | backend/src/main/java/com/continuum/memory/MemoryService.java:67-81 | Update rewrites only the row with that id. In it, only userId, source and content change; type, topic and active stay. An unknown id changes nothing |
| Memories.UpdateKeepingOwnerPreservesOneActivePreference | backend/src/main/java/com/continuum/memory/MemoryService.java:74-79 | An update that keeps the owner keeps at most one active preference per (user, topic) |
| Memories.UpdateCanBreakOneActivePreference | backend/src/main/java/com/continuum/memory/MemoryService.java:75 | Moving one of two users' active preferences on a shared topic to the other user breaks the invariant that creation keeps |
| Memories.MemoryService.constructor | backend/src/main/java/com/continuum/memory/MemoryService.java:14-16 | The service works on the table its repository holds |
| Memories.MemoryService.Save | backend/src/main/java/com/continuum/memory/MemoryService.java:58 | `repository.save` replaces the table by the saved one |
| Memories.MemoryService.CreateMemory | backend/src/main/java/com/continuum/memory/MemoryService.java:34-64 | Runs the supersession loop and the final save. The new table is Created(old table), the response is that of the new row, and one active preference per (user, topic) is kept |
| Memories.MemoryService.UpdateMemory | backend/src/main/java/com/continuum/memory/MemoryService.java:67-81 | Null exactly for an unknown id. Otherwise the table is Updated(old table) and the response is that of the overwritten row |
| Memories.MemoryService.GetMemoryById | backend/src/main/java/com/continuum/memory/MemoryService.java:140-146 | Null exactly when no row has the id; otherwise the response of a stored row with that id |
| Memories.MemoryService.DeleteMemoryById | backend/src/main/java/com/continuum/memory/MemoryService.java:149-155 | Returns whether the id existed. False leaves the table as it was; true removes one row, exactly the one with the id |
| ApiMemories.ResponseRoundTrip | backend/src/main/java/com/continuum/api/MemoryService.java:20-27 | toResponse copies id, userId, source and content unchanged: it has an inverse |
| ApiMemories.ToResponses | backend/src/main/java/com/continuum/api/MemoryService.java:85 | The i-th response is the response of the i-th row |
| ApiMemories.QueryContext | backend/src/main/java/com/continuum/api/MemoryService.java:72-87 | A negative limit fails. Otherwise the result has min(limit, rows of the user) elements in ranked order |
| ApiMemories.RankedIsPermutation | backend/src/main/java/com/continuum/api/MemoryService.java:76-83 | The ranking is a permutation of the user's rows |
| ApiMemories.RankedByScore | backend/src/main/java/com/continuum/api/MemoryService.java:79-83 | Scores never increase along the ranking |
| ApiMemories.RankedStable | backend/src/main/java/com/continuum/api/MemoryService.java:78-83 | Rows of equal score keep their storage order: there is no tie-break |
| ApiMemories.QueryContextKeepsBest | backend/src/main/java/com/continuum/api/MemoryService.java:78-84 | Every returned row scores at least as high as every row the limit cut off |
| ApiMemories.CreateThenFind | backend/src/main/java/com/continuum/api/MemoryService.java:30-39 | The created row is found again under its new id with the request's columns, and the ids stay unique |
| ApiMemories.UpdatedRows | backend/src/main/java/com/continuum/api/MemoryService.java:42-55 | Update rewrites only userId, source and content of the row with that id, keeps the ids unique, and findById sees the new row |
| ApiMemories.MemoryService.constructor | backend/src/main/java/com/continuum/api/MemoryService.java:15-17 | The service works on the table its repository holds |
| ApiMemories.MemoryService.CreateMemory | backend/src/main/java/com/continuum/api/MemoryService.java:30-39 | Appends exactly one row with the fresh id and the request's columns; the other rows are unchanged |
| ApiMemories.MemoryService.UpdateMemory | backend/src/main/java/com/continuum/api/MemoryService.java:42-55 | Null exactly for an unknown id. Otherwise the table is Updated(old table) and the response carries the request's columns |
| ApiMemories.MemoryService.GetMemoryById | backend/src/main/java/com/continuum/api/MemoryService.java:105-111 | Null exactly when no row has the id; otherwise a stored row with that id |
| ApiMemories.MemoryService.DeleteMemoryById | backend/src/main/java/com/continuum/api/MemoryService.java:114-120 | Returns whether the id existed. False changes nothing; true drops one row, and afterwards no row has the id |
| Users.ResponseRoundTrip | backend/src/main/java/com/continuum/user/UserService.java:19-26 | toResponse copies every column: it has an inverse |
| Users.CreateOutcome | backend/src/main/java/com/continuum/user/UserService.java:29-48 | "Username already exists" exactly when the username is taken. "Email already exists" exactly when the username is free and the email taken. Otherwise the new user has the fresh id and the request's fields |
| Users.CreatePreservesWellFormed | backend/src/main/java/com/continuum/user/UserService.java:29-48 | A failed creation saves nothing and a successful one appends one row. Ids, usernames and emails stay unique |
| Users.CreateThenFind | backend/src/main/java/com/continuum/user/UserService.java:40-47 | The created user is found by its id and by its username |
| Users.UpdateUnknown | backend/src/main/java/com/continuum/user/UserService.java:52-55 | An unknown id gives null and changes nothing |
| Users.UpdateRefused | backend/src/main/java/com/continuum/user/UserService.java:59-71 | The update fails exactly when it sets a username or email that another user holds; a username clash is reported first |
| Users.UpdateUnchangedAccepted | backend/src/main/java/com/continuum/user/UserService.java:59-71 | Resubmitting one's own username and email is never refused |
| Users.UpdatePreservesWellFormed | backend/src/main/java/com/continuum/user/UserService.java:51-79 | A successful update rewrites username, email and displayName of that row only and keeps all three columns unique. A failed update changes nothing |
| Users.DeletePreservesWellFormed | backend/src/main/java/com/continuum/user/UserService.java:107-113 | Delete removes exactly the user with the id, or nothing for an unknown id, and keeps the columns unique |
| Users.FindUser | backend/src/main/java/com/continuum/user/UserService.java:89-104 | A lookup is null exactly when no user has the value; otherwise a stored user with it |
| Users.FindUserUnique | backend/src/main/java/com/continuum/user/UserService.java:98-104 | Under a unique column the lookup returns the one user holding the value |
| Users.UserService.constructor | backend/src/main/java/com/continuum/user/UserService.java:14-16 | The service works on a well-formed table its repository holds |
| Users.UserService.CreateUser | backend/src/main/java/com/continuum/user/UserService.java:29-48 | The answer is CreateOutcome, the new table is AfterCreate, and the table stays well-formed |
| Users.UserService.UpdateUser | backend/src/main/java/com/continuum/user/UserService.java:51-79 | The answer is UpdateOutcome, the new table is AfterUpdate, and the table stays well-formed |
| Users.UserService.GetUserById | backend/src/main/java/com/continuum/user/UserService.java:89-95 | Null exactly for an unknown id; otherwise the stored user with it |
| Users.UserService.GetUserByUsername | backend/src/main/java/com/continuum/user/UserService.java:98-104 | Null exactly for an unknown username; otherwise a stored user with it |
| Users.UserService.DeleteUserById | backend/src/main/java/com/continuum/user/UserService.java:107-113 | Returns whether the id existed and removes exactly that user; the table stays well-formed |
| ApiUsers.UserService.constructor | backend/src/main/java/com/continuum/api/UserService.java:15-17 | The service works on a well-formed table its repository holds |
| ApiUsers.UserService.CreateUser | backend/src/main/java/com/continuum/api/UserService.java:30-49 | Same rules as the user package: CreateOutcome and AfterCreate, and the table stays well-formed |
| ApiUsers.UserService.UpdateUser | backend/src/main/java/com/continuum/api/UserService.java:52-80 | Same rules: UpdateOutcome and AfterUpdate, and the table stays well-formed |
| ApiUsers.UserService.GetUserById | backend/src/main/java/com/continuum/api/UserService.java:90-96 | Null exactly for an unknown id |
| ApiUsers.UserService.GetUserByUsername | backend/src/main/java/com/continuum/api/UserService.java:99-105 | Null exactly for an unknown username |
| ApiUsers.UserService.DeleteUserById | backend/src/main/java/com/continuum/api/UserService.java:108-114 | Returns whether the id existed and removes exactly that user |
| Prompts.TypeNamesIgnoreCase | backend/src/main/java/com/continuum/prompt/PromptService.java:39-49 | The preference, goal and task tests are `equalsIgnoreCase` against PREFERENCE, GOAL and TASK |
| Prompts.DecisionNamesIgnoreCase | backend/src/main/java/com/continuum/prompt/PromptService.java:53-56 | The decision test accepts DECISION and CONSTRAINT in any letter case |
| Prompts.ExactlyOnePartition | backend/src/main/java/com/continuum/prompt/PromptService.java:39-65 | Every memory falls into exactly one of the five partitions; null and unknown types go to the facts |
| Prompts.PartitionSizes | backend/src/main/java/com/continuum/prompt/PromptService.java:39-65 | The partition sizes add up to the size of the list |
| Prompts.DedupedDistinct | backend/src/main/java/com/continuum/prompt/PromptService.java:142-152 | The kept memories have content and pairwise different trimmed lower-case keys |
| Prompts.DedupedCovers | backend/src/main/java/com/continuum/prompt/PromptService.java:143-151 | Every key of a memory with content is kept by some memory |
| Prompts.FirstIndicesExact | backend/src/main/java/com/continuum/prompt/PromptService.java:143-151 | The kept positions are exactly the first occurrences of each key, ascending: the result is a subsequence of the input |
| Prompts.TracksAdd | backend/src/main/java/com/continuum/prompt/PromptService.java:147-150 | A memory with a new key is put into the map, and its key is appended to the insertion order |
| Prompts.TracksSkip | backend/src/main/java/com/continuum/prompt/PromptService.java:144-148 | A memory without content, or with a key already present, changes neither the map nor the order |
| Prompts.DedupeByContent | backend/src/main/java/com/continuum/prompt/PromptService.java:138-153 | The loop over the LinkedHashMap returns the first memory for each key, in input order |
| Prompts.MetaShape | backend/src/main/java/com/continuum/prompt/PromptService.java:96-112 | Metadata appears exactly when importance is at least 4 or tags are non-blank. It is wrapped in " (" and ")". Importance alone gives " (importance: N)", tags alone " (tags: t)", both " (importance: N, tags: t)" |
| Prompts.MetaSuffix | backend/src/main/java/com/continuum/prompt/PromptService.java:96-112 | The `meta` builder produces the metadata suffix Meta |
| Prompts.NumberedAt | backend/src/main/java/com/continuum/prompt/PromptService.java:83-92 | The t-th rendered entry carries number k + t: the numbers run on consecutively |
| Prompts.SectionHeader | backend/src/main/java/com/continuum/prompt/PromptService.java:79-82 | A section is written exactly when its list is non-empty; it starts with its header, which stands alone when nothing in it is rendered |
| Prompts.SkippedIgnored | backend/src/main/java/com/continuum/prompt/PromptService.java:84-90 | An inactive or woven memory contributes nothing to a non-empty section |
| Prompts.SectionEntry | backend/src/main/java/com/continuum/prompt/PromptService.java:82-114 | The t-th rendered memory follows the header and the entries before it, with the number t + 1 |
| Prompts.AppendEntry | backend/src/main/java/com/continuum/prompt/PromptService.java:92-114 | One rendered memory appends its number, content (or "null") and metadata |
| Prompts.RenderStep | backend/src/main/java/com/continuum/prompt/PromptService.java:84-115 | One loop turn adds the memory's entry, numbered after those rendered before it, or nothing when it is skipped |
| Prompts.RenderSection | backend/src/main/java/com/continuum/prompt/PromptService.java:78-116 | renderSection appends exactly Section(title, list) to the prompt |
| Prompts.BuildPrompt | backend/src/main/java/com/continuum/prompt/PromptService.java:18-134 | The builder produces Prompt: the opening, the CONTEXT block (the no-context sentence or the five sections in order), the task block and the closing |
| Prompts.SectionsShaped | backend/src/main/java/com/continuum/prompt/PromptService.java:118-122 | The five sections together are empty or start with a "## " section header |
| Prompts.BodyEmptyContext | backend/src/main/java/com/continuum/prompt/PromptService.java:35-36 | The no-context sentence stands in the CONTEXT block exactly when the list is empty; otherwise the block starts with a "## " section header |
| Prompts.TaskKindOnlyTask | backend/src/main/java/com/continuum/prompt/PromptService.java:47-49 | A memory of type "task" falls into the task partition only |
| Prompts.ContentlessTaskLeavesEmptyBlock | backend/src/main/java/com/continuum/prompt/PromptService.java:47-51 | A single task without content leaves the CONTEXT block empty: dedupe drops it, so there is no section and no no-context sentence either |
| Prompts.InstructionsIffAsked | backend/src/main/java/com/continuum/prompt/PromptService.java:25-31 | The prompt starts with the instruction block exactly when instructions are asked for |
| Prompts.FrameLayout | backend/src/main/java/com/continuum/prompt/PromptService.java:125-133 | The CONTEXT START line follows the opening, the body follows it, and then the CONTEXT END line. The prompt ends with "## TASK", the task and the closing sentence |
| Prompts.ContextLimit | backend/src/main/java/com/continuum/prompt/PromptService.java:163 | The limit is 5 for a missing or non-positive value and the given value otherwise |
| Prompts.IncludeInstructions | backend/src/main/java/com/continuum/prompt/PromptService.java:164 | Instructions are included exactly when the flag is present and true |
| Prompts.PromptService.constructor | backend/src/main/java/com/continuum/prompt/PromptService.java:13-15 | The composer uses the given memory service |
| Prompts.PromptService.GeneratePrompt | backend/src/main/java/com/continuum/prompt/PromptService.java:156-174 | The prompt is built from the user's ranked memories under the effective limit. The count is the number queried, min(limit, memories of the user), counting memories skipped in rendering |

## Left out

- The controllers, the workspace services, the NLU client, the browser extension
  and the CORS configuration are not part of this model. They do HTTP routing,
  framework configuration, remote calls and DOM work.
- `listMemories`, `listMemoriesByUserId` (both memory services) and `listUsers`
  (both user services) are left out. Each maps toResponse over a repository query
  and holds no rule of its own.
- Identity, time and persistence are not modelled:
  - UUID generation is an input, `newId`. The method requires it to be unused.
  - The timestamp the persistence layer assigns is also an input, `createdAt`.
  - Concurrency, transactions and the aliasing of managed JPA entities are left
    out. Changing a loaded entity and saving it is modelled as replacing its row.
- The memory service's `workspaceId` is left out. It is never set from a request
  and toResponse never copies it; the response field is always None.
- The 4-argument `queryContext(userId, workspaceId, task, limit)` call of
  generatePrompt has no declaration in the memory service. The model calls the
  3-argument one.
- Prompts.PromptService.GeneratePrompt: reads the memory service's table directly rather than through a
  method call. A negative limit cannot occur there, since the effective limit is at least 1.
- Prompts.BuildPrompt: a null list and a null task are not modelled. The list is
  a sequence, and the task is a non-blank string when it comes from a request. A
  null memory inside a list is not modelled either.
- Memories.RankedNewerFirst: requires every memory of the user to have a timestamp.
  When either timestamp is missing, the comparator calls the pair equal, which is
  not a preorder.
- Memories.QueryContext: when a user's rows mix present and missing timestamps,
  the comparator is inconsistent and the JDK's TimSort (a binary insertion sort
  below 32 elements) may order the rows differently from the model's stable
  insertion sort. With enough rows TimSort may also throw IllegalArgumentException
  ("Comparison method violates its general contract!"), which is not modelled. The
  model shows one stable order. When the user's rows all have timestamps or all
  lack them, the comparator is consistent and the order is the one stated.
  Memories.RankedIsPermutation and Memories.RankedByScore hold either way.
- Memories.RankedStable: for mixed timestamps this is a property of the model's
  sort, not of the JDK's: TimSort may swap two rows of equal score and equal
  timestamp, since a row without a timestamp between them compares equal to both.
- Prompts.PromptService.GeneratePrompt: inherits the order of Memories.QueryContext,
  so the remark above applies to the rendered memories as well.
- Text.ToLower: ASCII letters only. Text.IsBlank likewise uses ASCII white space.
  Unicode case mapping is not modelled.
- Text.NatToString: Java's int width is not modelled. Importance values and
  entry numbers are unbounded integers, so an overflow past 2^31 - 1 is not
  represented.
- Memories.Supersede: its own contract states only the row count. The rows it
  changes are stated by Memories.CreatedRows and Memories.SupersededRow.
- MetaSuffix, AppendEntry and the Save method are inline code in the source.
  They are separate members here so that each step has its own contract.
- The entity classes `Memory` and `User` of package `com.continuum.api` are not
  part of this model. Their columns are taken from the fields toResponse copies.
