/** The prompt composer of package com.continuum.prompt: the ranked memories of a
    user are sorted into five sections by type, rendered as numbered lists with a
    little metadata, and framed by fixed CONTEXT and TASK blocks. */
module Prompts {
  import opened Wrappers
  import opened Text
  import opened Seqs
  import Memories

  type MemoryResponse = Memories.MemoryResponse

  // ---------------------------------------------------------------------------
  // Partitioning by type

  /** "NAME".equalsIgnoreCase(m.type) for an upper-case NAME whose lower-case form
      is lower: false for a null type. */
  predicate TypeIs(m: MemoryResponse, lower: string) {
    m.kind.Some? && ToLower(m.kind.value) == lower
  }

  /** The same test as the one createMemory uses for supersession. */
  predicate IsPreference(m: MemoryResponse) { Memories.IsPreferenceKind(m.kind) }
  predicate IsGoal(m: MemoryResponse) { TypeIs(m, "goal") }
  predicate IsTask(m: MemoryResponse) { TypeIs(m, "task") }
  predicate IsDecision(m: MemoryResponse) { TypeIs(m, "decision") || TypeIs(m, "constraint") }

  /** The catch-all: a null type or none of the five known ones. */
  predicate IsFact(m: MemoryResponse) {
    m.kind.None? ||
    (!IsPreference(m) && !TypeIs(m, "goal") && !TypeIs(m, "task") &&
     !TypeIs(m, "decision") && !TypeIs(m, "constraint"))
  }

  /** For an upper-case NAME whose lower-case form is lower, TypeIs(m, lower) is
      "NAME".equalsIgnoreCase(m.type). */
  lemma TypeIsIgnoresCase(m: MemoryResponse, upper: string, lower: string)
    requires |upper| == |lower| && forall i :: 0 <= i < |upper| ==> lower[i] == LowerChar(upper[i])
    ensures TypeIs(m, lower) <==> m.kind.Some? && EqualsIgnoreCase(upper, m.kind.value)
  {
    LowerName(upper, lower);
  }

  /** The type names the sections test, in the spelling of the source. */
  lemma TypeNamesIgnoreCase(m: MemoryResponse)
    ensures IsPreference(m) <==> m.kind.Some? && EqualsIgnoreCase("PREFERENCE", m.kind.value)
    ensures IsGoal(m) <==> m.kind.Some? && EqualsIgnoreCase("GOAL", m.kind.value)
    ensures IsTask(m) <==> m.kind.Some? && EqualsIgnoreCase("TASK", m.kind.value)
  {
    Memories.PreferenceKindIgnoresCase(m.kind);
    TypeIsIgnoresCase(m, "GOAL", "goal");
    TypeIsIgnoresCase(m, "TASK", "task");
  }

  lemma DecisionNamesIgnoreCase(m: MemoryResponse)
    ensures IsDecision(m) <==> m.kind.Some? && (EqualsIgnoreCase("DECISION", m.kind.value) || EqualsIgnoreCase("CONSTRAINT", m.kind.value))
  {
    TypeIsIgnoresCase(m, "DECISION", "decision");
    TypeIsIgnoresCase(m, "CONSTRAINT", "constraint");
  }

  function Preferences(ms: seq<MemoryResponse>): seq<MemoryResponse> { Filter(ms, IsPreference) }
  function Goals(ms: seq<MemoryResponse>): seq<MemoryResponse> { Filter(ms, IsGoal) }
  function Tasks(ms: seq<MemoryResponse>): seq<MemoryResponse> { Filter(ms, IsTask) }
  function Decisions(ms: seq<MemoryResponse>): seq<MemoryResponse> { Filter(ms, IsDecision) }
  function Facts(ms: seq<MemoryResponse>): seq<MemoryResponse> { Filter(ms, IsFact) }

  /** How many of the five partitions a memory falls into. */
  function PartitionCount(m: MemoryResponse): nat {
    (if IsPreference(m) then 1 else 0) + (if IsGoal(m) then 1 else 0) + (if IsTask(m) then 1 else 0) +
    (if IsDecision(m) then 1 else 0) + (if IsFact(m) then 1 else 0)
  }

  /** Every memory lands in exactly one partition. */
  lemma ExactlyOnePartition(m: MemoryResponse)
    ensures PartitionCount(m) == 1
  {

  }

  /** The partitions together hold every input memory once: their sizes add up to
      the size of the list. */
  lemma {:induction false} PartitionSizes(ms: seq<MemoryResponse>)
    ensures |Preferences(ms)| + |Goals(ms)| + |Tasks(ms)| + |Decisions(ms)| + |Facts(ms)| == |ms|
  {
    if ms != [] {
      PartitionSizes(ms[1..]);
      ExactlyOnePartition(ms[0]);
    }
  }

  // ---------------------------------------------------------------------------
  // De-duplication of the task section (dedupeByContent)

  /** content.trim().toLowerCase(), or None for null content. */
  function ContentKey(m: MemoryResponse): Option<string> {
    match m.content
    case None => None
    case Some(c) => Some(ToLower(Trim(c)))
  }

  /** ms[i] has content and no earlier memory has content with the same key. */
  ghost predicate IsFirst(ms: seq<MemoryResponse>, i: nat)
    requires i < |ms|
  {
    ContentKey(ms[i]).Some? && forall j :: 0 <= j < i ==> ContentKey(ms[j]) != ContentKey(ms[i])
  }

  ghost function FirstAt(ms: seq<MemoryResponse>): nat -> bool {
    (i: nat) => i < |ms| && IsFirst(ms, i)
  }

  /** The positions below n that hold a first occurrence, in increasing order. */
  ghost function FirstIndices(ms: seq<MemoryResponse>, n: nat): seq<nat>
    requires n <= |ms|
  {
    IndicesWhere(n, FirstAt(ms))
  }

  /** FirstIndices lists exactly the first occurrences below n, each once, ascending. */
  lemma FirstIndicesExact(ms: seq<MemoryResponse>, n: nat)
    requires n <= |ms|
    ensures forall t :: 0 <= t < |FirstIndices(ms, n)| ==> FirstIndices(ms, n)[t] < n && IsFirst(ms, FirstIndices(ms, n)[t])
    ensures forall s, t :: 0 <= s < t < |FirstIndices(ms, n)| ==> FirstIndices(ms, n)[s] < FirstIndices(ms, n)[t]
    ensures forall i :: 0 <= i < n && IsFirst(ms, i) ==> i in FirstIndices(ms, n)
  {
    IndicesWhereExact(n, FirstAt(ms));
    forall i | 0 <= i < n && IsFirst(ms, i) ensures i in FirstIndices(ms, n) {
      assert FirstAt(ms)(i);
    }
  }

  /** The first occurrences, in input order: what dedupeByContent returns. */
  ghost function Deduped(ms: seq<MemoryResponse>): seq<MemoryResponse> {
    Firsts(ms, |ms|)
  }

  /** The kept memories have content and pairwise different keys. */
  lemma DedupedDistinct(ms: seq<MemoryResponse>)
    ensures forall t :: 0 <= t < |Deduped(ms)| ==> Deduped(ms)[t].content.Some?
    ensures forall s, t :: 0 <= s < t < |Deduped(ms)| ==> ContentKey(Deduped(ms)[s]) != ContentKey(Deduped(ms)[t])
  {
    var idx := FirstIndices(ms, |ms|);
    FirstIndicesExact(ms, |ms|);
    forall s, t | 0 <= s < t < |Deduped(ms)| ensures ContentKey(Deduped(ms)[s]) != ContentKey(Deduped(ms)[t]) {
      assert idx[s] < idx[t] && IsFirst(ms, idx[t]);
    }
  }

  /** Every key of the input is kept, by its first occurrence. */
  lemma DedupedCovers(ms: seq<MemoryResponse>, i: nat)
    requires i < |ms| && ms[i].content.Some?
    ensures exists t :: 0 <= t < |Deduped(ms)| && ContentKey(Deduped(ms)[t]) == ContentKey(ms[i])
  {
    var j := FirstWithKey(ms, i);
    var idx := FirstIndices(ms, |ms|);
    FirstIndicesExact(ms, |ms|);
    var t :| 0 <= t < |idx| && idx[t] == j;
    assert ContentKey(Deduped(ms)[t]) == ContentKey(ms[i]);
  }

  /** The leftmost position with the key of ms[i]. */
  lemma {:induction false} FirstWithKey(ms: seq<MemoryResponse>, i: nat) returns (j: nat)
    requires i < |ms| && ms[i].content.Some?
    ensures j <= i && ContentKey(ms[j]) == ContentKey(ms[i]) && IsFirst(ms, j)
    decreases i
  {
    if exists k :: 0 <= k < i && ContentKey(ms[k]) == ContentKey(ms[i]) {
      var k :| 0 <= k < i && ContentKey(ms[k]) == ContentKey(ms[i]);
      j := FirstWithKey(ms, k);
    } else {
      j := i;
    }
  }

  /** The first occurrences among ms[..n], in input order. */
  ghost function Firsts(ms: seq<MemoryResponse>, n: nat): seq<MemoryResponse>
    requires n <= |ms|
  {
    FirstIndicesExact(ms, n);
    var idx := FirstIndices(ms, n);
    seq(|idx|, t requires 0 <= t < |idx| => ms[idx[t]])
  }

  /** Looking at one more position adds it exactly when it is a first occurrence. */
  lemma FirstsSnoc(ms: seq<MemoryResponse>, n: nat)
    requires n < |ms|
    ensures Firsts(ms, n + 1) == Firsts(ms, n) + (if IsFirst(ms, n) then [ms[n]] else [])
  {
    FirstIndicesExact(ms, n);
    FirstIndicesExact(ms, n + 1);
  }

  /** The keys of the elements of s[..n] that have one. */
  ghost function KeysUpTo<T, K>(s: seq<T>, n: nat, key: T -> Option<K>): set<K>
    requires n <= |s|
  {
    if n == 0 then {} else KeysUpTo(s, n - 1, key) + (match key(s[n - 1]) case None => {} case Some(k) => {k})
  }

  lemma {:induction false} KeysUpToMember<T, K>(s: seq<T>, n: nat, key: T -> Option<K>, k: K)
    requires n <= |s|
    ensures k in KeysUpTo(s, n, key) <==> exists j :: 0 <= j < n && key(s[j]) == Some(k)
  {
    if n > 0 {
      KeysUpToMember(s, n - 1, key, k);
      if key(s[n - 1]) == Some(k) {
        assert exists j :: 0 <= j < n && key(s[j]) == Some(k);
      }
    }
  }

  /** The state of dedupeByContent after the first n memories: the map holds the
      keys seen so far, and read in insertion order it lists the first occurrences. */
  ghost predicate Tracks(ms: seq<MemoryResponse>, n: nat, byContent: map<string, MemoryResponse>, keys: seq<string>)
    requires n <= |ms|
  {
    |keys| == |Firsts(ms, n)| &&
    (forall t :: 0 <= t < |keys| ==> keys[t] in byContent && byContent[keys[t]] == Firsts(ms, n)[t]) &&
    byContent.Keys == KeysUpTo(ms, n, ContentKey)
  }

  /** A memory without content, or whose key is already mapped, changes nothing. */
  lemma TracksSkip(ms: seq<MemoryResponse>, n: nat, byContent: map<string, MemoryResponse>, keys: seq<string>)
    requires n < |ms| && Tracks(ms, n, byContent, keys)
    requires ContentKey(ms[n]).Some? ==> ContentKey(ms[n]).value in byContent
    ensures Tracks(ms, n + 1, byContent, keys)
  {
    FirstsSnoc(ms, n);
    if ContentKey(ms[n]).Some? {
      KeysUpToMember(ms, n, ContentKey, ContentKey(ms[n]).value);
    }
  }

  /** A memory whose key is new is mapped and its key appended. */
  lemma TracksAdd(ms: seq<MemoryResponse>, n: nat, byContent: map<string, MemoryResponse>, keys: seq<string>, key: string)
    requires n < |ms| && Tracks(ms, n, byContent, keys)
    requires ContentKey(ms[n]) == Some(key) && key !in byContent
    ensures Tracks(ms, n + 1, byContent[key := ms[n]], keys + [key])
  {
    FirstsSnoc(ms, n);
    KeysUpToMember(ms, n, ContentKey, key);
    assert IsFirst(ms, n);
    InsertionOrderStep(byContent, keys, Firsts(ms, n), key, ms[n]);
  }

  /** Inserting a new key at the end keeps the map, read in key order, equal to the
      values listed so far. */
  lemma InsertionOrderStep<K, V>(m: map<K, V>, keys: seq<K>, values: seq<V>, key: K, value: V)
    requires |keys| == |values| && key !in m
    requires forall t :: 0 <= t < |keys| ==> keys[t] in m && m[keys[t]] == values[t]
    ensures var m', keys', values' := m[key := value], keys + [key], values + [value];
      |keys'| == |values'| && forall t :: 0 <= t < |keys'| ==> keys'[t] in m' && m'[keys'[t]] == values'[t]
  {
  }

  /** dedupeByContent: a LinkedHashMap from key to the first memory with that key,
      kept as the map and the order in which its keys were inserted. An empty list
      is returned as it is. */
  method DedupeByContent(memories: seq<MemoryResponse>) returns (r: seq<MemoryResponse>)
    ensures r == Deduped(memories)
  {
    if |memories| == 0 {
      return memories;
    }
    var byContent: map<string, MemoryResponse> := map[];
    var keys: seq<string> := [];
    for i := 0 to |memories|
      invariant Tracks(memories, i, byContent, keys)
    {
      var memory := memories[i];
      if memory.content.None? {
        TracksSkip(memories, i, byContent, keys);
        continue;
      }
      var key := ToLower(Trim(memory.content.value));
      if key !in byContent {
        TracksAdd(memories, i, byContent, keys, key);
        byContent := byContent[key := memory];
        keys := keys + [key];
      } else {
        TracksSkip(memories, i, byContent, keys);
      }
    }
    r := seq(|keys|, t requires 0 <= t < |keys| => byContent[keys[t]]);
  }

  // ---------------------------------------------------------------------------
  // Rendering (buildPrompt)

  /** The constants are written one sentence per literal. */
  const INSTRUCTIONS: string :=
    "You are an AI assistant. " + "Use the CONTEXT section as the user's long-term memory (goals, preferences, history).\n" +
    "Read CONTEXT first, then answer TASK. " + "Prefer recent or explicitly corrective items when there is conflict.\n\n"
  const CONTEXT_START: string := "===== CONTEXT START =====\n\n"
  const NO_CONTEXT: string := "No prior context was found for this user. " + "Use only the TASK below.\n\n"
  const CONTEXT_END: string := "===== CONTEXT END =====\n\n"
  const CLOSING: string :=
    "\nWhen answering, ground your response in the CONTEXT where relevant and keep it consistent with the user's long-term preferences."

  /** The two texts that mark a memory holding a whole woven prompt. */
  const START_MARKER: string := "===== CONTEXT START ====="
  const LEGACY_MARKER: string := "You are an AI assistant that uses a persistent memory layer (Continuum)"

  /** isWovenPromptMemory: null content is never woven. */
  predicate IsWoven(m: MemoryResponse) {
    m.content.Some? && (Contains(m.content.value, START_MARKER) || Contains(m.content.value, LEGACY_MARKER))
  }

  /** The memories a section lists: active and not woven. */
  predicate Renderable(m: MemoryResponse) {
    m.active && !IsWoven(m)
  }

  /** StringBuilder.append(String) writes "null" for null. */
  function ContentText(m: MemoryResponse): string {
    match m.content
    case None => "null"
    case Some(c) => c
  }

  /** The importance part of the metadata: only from 4 up. */
  function ImportanceNote(m: MemoryResponse): Option<string> {
    if m.importance.Some? && m.importance.value >= 4 then Some("importance: " + IntToString(m.importance.value)) else None
  }

  /** The tags part of the metadata: only for non-blank tags. */
  function TagsNote(m: MemoryResponse): Option<string> {
    if m.tags.Some? && !IsBlank(m.tags.value) then Some("tags: " + m.tags.value) else None
  }

  /** The metadata suffix: the parts that apply, joined by ", " and wrapped in
      " (" and ")", or nothing when neither applies. */
  function Meta(m: MemoryResponse): string {
    match (ImportanceNote(m), TagsNote(m))
    case (None, None) => ""
    case (Some(a), None) => " (" + a + ")"
    case (None, Some(b)) => " (" + b + ")"
    case (Some(a), Some(b)) => " (" + a + ", " + b + ")"
  }

  /** The metadata appears exactly when a part applies, is wrapped, and starts with
      the importance when there is one. */
  lemma MetaShape(m: MemoryResponse)
    ensures Meta(m) == "" <==>
      !(m.importance.Some? && m.importance.value >= 4) && !(m.tags.Some? && !IsBlank(m.tags.value))
    ensures Meta(m) != "" ==> Meta(m)[..2] == " (" && Meta(m)[|Meta(m)| - 1] == ')'
    ensures m.importance.Some? && m.importance.value >= 4 ==>
      " (importance: " + IntToString(m.importance.value) <= Meta(m)
    ensures !(m.importance.Some? && m.importance.value >= 4) && m.tags.Some? && !IsBlank(m.tags.value) ==>
      Meta(m) == " (tags: " + m.tags.value + ")"
    ensures m.importance.Some? && m.importance.value >= 4 && !(m.tags.Some? && !IsBlank(m.tags.value)) ==>
      Meta(m) == " (importance: " + IntToString(m.importance.value) + ")"
    ensures m.importance.Some? && m.importance.value >= 4 && m.tags.Some? && !IsBlank(m.tags.value) ==>
      Meta(m) == " (importance: " + IntToString(m.importance.value) + ", tags: " + m.tags.value + ")"
  {
  }

  /** One numbered line of a section. */
  function Entry(index: nat, m: MemoryResponse): string {
    NatToString(index) + ". " + ContentText(m) + Meta(m) + "\n\n"
  }

  /** The entries of rs numbered from k on. */
  function Numbered(rs: seq<MemoryResponse>, k: nat): string {
    NumberedJoin(rs, k, Entry)
  }

  /** The t-th rendered memory of a list numbered from k gets number k + t: the
      numbers run on consecutively. */
  lemma NumberedAt(rs: seq<MemoryResponse>, k: nat, t: nat)
    requires t < |rs|
    ensures Numbered(rs, k) == Numbered(rs[..t], k) + Entry(k + t, rs[t]) + Numbered(rs[t + 1..], k + t + 1)
  {
    NumberedJoinAt(rs, k, t, Entry);
  }

  /** A section: nothing for an empty list, otherwise the header and the numbered
      renderable memories. */
  function Header(title: string): string {
    "## " + title + "\n\n"
  }

  function Section(title: string, list: seq<MemoryResponse>): string {
    if list == [] then "" else Header(title) + Numbered(Filter(list, Renderable), 1)
  }

  /** The header is written exactly when the list is non-empty, even when no memory
      of it is rendered. */
  lemma SectionHeader(title: string, list: seq<MemoryResponse>)
    ensures Section(title, list) == "" <==> list == []
    ensures list != [] ==> "## " + title + "\n\n" <= Section(title, list)
    ensures list != [] && Filter(list, Renderable) == [] ==> Section(title, list) == "## " + title + "\n\n"
  {
  }

  /** An inactive or woven memory leaves a non-empty section as it is without it. */
  lemma SkippedIgnored(title: string, a: seq<MemoryResponse>, m: MemoryResponse, b: seq<MemoryResponse>)
    requires !Renderable(m) && a + b != []
    ensures Section(title, a + [m] + b) == Section(title, a + b)
  {
    FilterConcat(a + [m], b, Renderable);
    FilterConcat(a, [m], Renderable);
    FilterConcat(a, b, Renderable);
    assert Filter([m], Renderable) == [];
    assert Filter(a + [m] + b, Renderable) == Filter(a + b, Renderable);
  }

  /** What the CONTEXT block holds: the fixed sentence for no memories, otherwise
      the five sections in their fixed order. */
  ghost function Body(ms: seq<MemoryResponse>): string {
    if ms == [] then NO_CONTEXT
    else
      var (s1, s2, s3, s4, s5) := Sections(ms);
      s1 + s2 + s3 + s4 + s5
  }

  function TaskBlock(task: string): string {
    "## TASK\n\n" + task + "\n"
  }

  /** The text before the CONTEXT block: the instructions when asked for. */
  function Opening(includeInstructions: bool): string {
    if includeInstructions then INSTRUCTIONS else ""
  }

  /** The fixed frame around a CONTEXT block body and a task. */
  function Frame(opening: string, body: string, task: string): string {
    opening + CONTEXT_START + body + CONTEXT_END + TaskBlock(task) + CLOSING
  }

  /** The whole prompt. */
  ghost function Prompt(ms: seq<MemoryResponse>, task: string, includeInstructions: bool): string {
    Frame(Opening(includeInstructions), Body(ms), task)
  }

  /** The five sections, in the order buildPrompt renders them. */
  ghost function Sections(ms: seq<MemoryResponse>): (string, string, string, string, string) {
    (Section("User Preferences", Preferences(ms)),
     Section("Current Goals", Goals(ms)),
     Section("Recent Prompts", Deduped(Tasks(ms))),
     Section("Important Decisions / Constraints", Decisions(ms)),
     Section("Other Relevant Facts", Facts(ms)))
  }

  /** The metadata builder of renderSection: each applying part is appended, after
      ", " when something precedes it, and the result is wrapped when non-empty. */
  method MetaSuffix(memory: MemoryResponse) returns (suffix: string)
    ensures suffix == Meta(memory)
  {
    var meta := "";
    if memory.importance.Some? && memory.importance.value >= 4 {
      if |meta| > 0 {
        meta := meta + ", ";
      }
      meta := meta + "importance: " + IntToString(memory.importance.value);
    }
    assert meta == match ImportanceNote(memory) case None => "" case Some(a) => a;
    ghost var first := meta;
    if memory.tags.Some? && !IsBlank(memory.tags.value) {
      if |meta| > 0 {
        meta := meta + ", ";
      }
      meta := meta + "tags: " + memory.tags.value;
      assert meta == (if first == "" then "" else first + ", ") + TagsNote(memory).value;
    }
    suffix := if |meta| > 0 then " (" + meta + ")" else "";
  }

  /** The body of renderSection's loop for a memory that is rendered. */
  method AppendEntry(prompt: string, index: nat, memory: MemoryResponse) returns (out: string)
    ensures out == prompt + Entry(index, memory)
  {
    out := prompt + NatToString(index) + ". ";
    out := out + ContentText(memory);
    var suffix := MetaSuffix(memory);
    out := out + suffix;
    out := out + "\n\n";
  }

  /** One turn of renderSection's loop: the i-th memory adds its entry, numbered
      after those rendered before it, or nothing when it is skipped. */
  lemma RenderStep(list: seq<MemoryResponse>, i: nat)
    requires i < |list|
    ensures var done := Filter(list[..i], Renderable);
      if Renderable(list[i]) then
        && Filter(list[..i + 1], Renderable) == done + [list[i]]
        && Numbered(Filter(list[..i + 1], Renderable), 1) == Numbered(done, 1) + Entry(1 + |done|, list[i])
      else Filter(list[..i + 1], Renderable) == done
  {
    assert list[..i + 1] == list[..i] + [list[i]];
    FilterSnoc(list[..i], list[i], Renderable);
    NumberedJoinSnoc(Filter(list[..i], Renderable), list[i], 1, Entry);
  }

  /** renderSection, appending to the prompt built so far: the header, then for each
      memory, unless it is inactive or woven, its number, its content and its
      metadata. */
  method RenderSection(prompt: string, title: string, list: seq<MemoryResponse>) returns (out: string)
    ensures out == prompt + Section(title, list)
  {
    out := prompt;
    if |list| == 0 {
      return;
    }
    out := out + Header(title);
    ghost var header := out;
    var index := 1;
    for i := 0 to |list|
      invariant index == 1 + |Filter(list[..i], Renderable)|
      invariant out == header + Numbered(Filter(list[..i], Renderable), 1)
      invariant header == prompt + Header(title)
    {
      var memory := list[i];
      RenderStep(list, i);
      if !memory.active {
        continue;
      }
      if IsWoven(memory) {
        continue;
      }
      ghost var previous := out;
      out := AppendEntry(out, index, memory);
      AppendAssoc(header, Numbered(Filter(list[..i], Renderable), 1), Entry(index, memory));
      index := index + 1;
    }
    assert list[..|list|] == list;
    AppendAssoc(prompt, Header(title), Numbered(Filter(list, Renderable), 1));
  }

  /** buildPrompt */
  method BuildPrompt(contextMemories: seq<MemoryResponse>, task: string, includeInstructions: bool) returns (prompt: string)
    ensures prompt == Prompt(contextMemories, task, includeInstructions)
  {
    prompt := "";
    if includeInstructions {
      prompt := prompt + INSTRUCTIONS;
      EmptyAppend(INSTRUCTIONS);
    }
    assert prompt == if includeInstructions then INSTRUCTIONS else "";
    prompt := prompt + CONTEXT_START;
    ghost var opening := prompt;
    if |contextMemories| == 0 {
      prompt := prompt + NO_CONTEXT;
    } else {
      var preferences := Filter(contextMemories, IsPreference);
      var goals := Filter(contextMemories, IsGoal);
      var tasks := Filter(contextMemories, IsTask);
      tasks := DedupeByContent(tasks);
      var decisions := Filter(contextMemories, IsDecision);
      var facts := Filter(contextMemories, IsFact);
      prompt := RenderSection(prompt, "User Preferences", preferences);
      prompt := RenderSection(prompt, "Current Goals", goals);
      prompt := RenderSection(prompt, "Recent Prompts", tasks);
      prompt := RenderSection(prompt, "Important Decisions / Constraints", decisions);
      prompt := RenderSection(prompt, "Other Relevant Facts", facts);
      ghost var (s1, s2, s3, s4, s5) := Sections(contextMemories);
      AppendAssoc(opening, s1, s2);
      AppendAssoc(opening, s1 + s2, s3);
      AppendAssoc(opening, s1 + s2 + s3, s4);
      AppendAssoc(opening, s1 + s2 + s3 + s4, s5);
    }
    ghost var body := prompt;
    assert body == opening + Body(contextMemories);
    prompt := prompt + CONTEXT_END;
    prompt := prompt + "## TASK\n\n";
    prompt := prompt + task + "\n";
    AppendAssoc(body + CONTEXT_END, "## TASK\n\n" + task, "\n");
    AppendAssoc(body + CONTEXT_END, "## TASK\n\n", task);
    assert prompt == body + CONTEXT_END + TaskBlock(task);
    prompt := prompt + CLOSING;
  }

  // ---------------------------------------------------------------------------
  // The shape of the prompt

  /** Every section is empty or starts with its "## " header. */
  predicate SectionShaped(s: string) {
    s == "" || "## " <= s
  }

  lemma SectionsShaped(ms: seq<MemoryResponse>)
    ensures var (s1, s2, s3, s4, s5) := Sections(ms);
      SectionShaped(s1 + s2 + s3 + s4 + s5)
  {
    var (s1, s2, s3, s4, s5) := Sections(ms);
    SectionIsShaped("User Preferences", Preferences(ms));
    SectionIsShaped("Current Goals", Goals(ms));
    SectionIsShaped("Recent Prompts", Deduped(Tasks(ms)));
    SectionIsShaped("Important Decisions / Constraints", Decisions(ms));
    SectionIsShaped("Other Relevant Facts", Facts(ms));
    ShapedConcat(s1, s2);
    ShapedConcat(s1 + s2, s3);
    ShapedConcat(s1 + s2 + s3, s4);
    ShapedConcat(s1 + s2 + s3 + s4, s5);
  }

  lemma SectionIsShaped(title: string, list: seq<MemoryResponse>)
    ensures SectionShaped(Section(title, list))
  {
    if list != [] {
      var rest := title + "\n\n" + Numbered(Filter(list, Renderable), 1);
      assert Section(title, list) == "## " + rest;
    }
  }

  lemma ShapedConcat(a: string, b: string)
    requires SectionShaped(a) && SectionShaped(b)
    ensures SectionShaped(a + b)
  {
    if a == "" {
      assert a + b == b;
    } else {
      assert (a + b)[..3] == a[..3];
    }
  }

  lemma NoContextUnshaped()
    ensures |NO_CONTEXT| > 0 && !SectionShaped(NO_CONTEXT)
  {
    assert NO_CONTEXT[0] == 'N';
  }

  /** The fixed sentence stands in the CONTEXT block exactly when there are no
      memories; otherwise the block holds only sections. */
  lemma BodyEmptyContext(ms: seq<MemoryResponse>)
    ensures Body(ms) == NO_CONTEXT <==> ms == []
    ensures ms != [] ==> SectionShaped(Body(ms))
  {
    if ms != [] {
      SectionsShaped(ms);
      NoContextUnshaped();
    }
  }

  /** A memory of type "task" falls into the task partition only. */
  lemma TaskKindOnlyTask(m: MemoryResponse)
    requires m.kind == Some("task")
    ensures IsTask(m) && !IsPreference(m) && !IsGoal(m) && !IsDecision(m) && !IsFact(m)
  {
    LowerName("task", "task");
    assert "task" != "goal" by { assert "task"[0] != "goal"[0]; }
  }

  /** A list of task memories without content renders no section at all: the
      CONTEXT block is empty although the list is not. */
  lemma ContentlessTaskLeavesEmptyBlock(m: MemoryResponse)
    requires m.kind == Some("task") && m.content.None?
    ensures Body([m]) == ""
  {
    TaskKindOnlyTask(m);
    OnlyTaskPartition(m);
    ContentlessNotKept(m);
    assert Sections([m]) == ("", "", "", "", "");
  }

  /** A single memory of the task partition only. */
  lemma OnlyTaskPartition(m: MemoryResponse)
    requires IsTask(m) && !IsPreference(m) && !IsGoal(m) && !IsDecision(m) && !IsFact(m)
    ensures Preferences([m]) == [] && Goals([m]) == [] && Tasks([m]) == [m]
    ensures Decisions([m]) == [] && Facts([m]) == []
  {
    FilterSingleton(m, IsPreference);
    FilterSingleton(m, IsGoal);
    FilterSingleton(m, IsTask);
    FilterSingleton(m, IsDecision);
    FilterSingleton(m, IsFact);
  }

  /** A lone memory without content has no key and is not kept. */
  lemma ContentlessNotKept(m: MemoryResponse)
    requires m.content.None?
    ensures Deduped([m]) == []
  {
    FirstIndicesExact([m], 1);
    assert !IsFirst([m], 0);
  }

  /** The five parts of s = pre + start + body + end + tail, found again by position. */
  lemma Framed(pre: string, start: string, body: string, end: string, tail: string)
    ensures var p, n := pre + start + body + end + tail, |pre| + |start|;
      && p[..n] == pre + start
      && p[n..n + |body|] == body
      && p[n + |body|..n + |body| + |end|] == end
      && p[|p| - |tail|..] == tail
  {
  }

  /** The instructions open the frame exactly when they are the opening. */
  lemma InstructionsIffAsked(body: string, task: string, includeInstructions: bool)
    ensures includeInstructions <==> INSTRUCTIONS <= Frame(Opening(includeInstructions), body, task)
  {
    var p := Frame(Opening(includeInstructions), body, task);
    if !includeInstructions {
      assert p[0] == CONTEXT_START[0] != INSTRUCTIONS[0];
    }
  }

  /** Where the parts of a frame stand: the opening, the CONTEXT START line, the
      body, the CONTEXT END line, and at the very end the task block followed by
      the closing sentence. */
  lemma FrameLayout(opening: string, body: string, task: string)
    ensures var p, n := Frame(opening, body, task), |opening| + |CONTEXT_START|;
      && opening + CONTEXT_START <= p
      && p[n..n + |body|] == body
      && p[n + |body|..n + |body| + |CONTEXT_END|] == CONTEXT_END
      && p[|p| - |TaskBlock(task) + CLOSING|..] == TaskBlock(task) + CLOSING
  {
    AppendAssoc(opening + CONTEXT_START + body + CONTEXT_END, TaskBlock(task), CLOSING);
    Framed(opening, CONTEXT_START, body, CONTEXT_END, TaskBlock(task) + CLOSING);
  }

  /** The t-th rendered memory of a section follows the header and the entries
      before it, and carries the number t + 1. */
  lemma SectionEntry(title: string, list: seq<MemoryResponse>, t: nat)
    requires t < |Filter(list, Renderable)|
    ensures var r := Filter(list, Renderable);
      Section(title, list) == Header(title) + Numbered(r[..t], 1) + Entry(t + 1, r[t]) + Numbered(r[t + 1..], t + 2)
  {
    var r := Filter(list, Renderable);
    NumberedAt(r, 1, t);
    AppendAssoc(Header(title), Numbered(r[..t], 1) + Entry(t + 1, r[t]), Numbered(r[t + 1..], t + 2));
    AppendAssoc(Header(title), Numbered(r[..t], 1), Entry(t + 1, r[t]));
  }

  // ---------------------------------------------------------------------------
  // generatePrompt

  /** PromptDto.GeneratePromptResponse */
  datatype GeneratePromptResponse = GeneratePromptResponse(prompt: string, contextMemoriesUsed: int)

  /** A missing or non-positive limit means 5. */
  function ContextLimit(contextLimit: Option<int>): (limit: int)
    ensures limit >= 1
    ensures contextLimit.Some? && contextLimit.value > 0 ==> limit == contextLimit.value
    ensures contextLimit.None? || contextLimit.value <= 0 ==> limit == 5
  {
    if contextLimit.None? || contextLimit.value <= 0 then 5 else contextLimit.value
  }

  /** A missing flag means false. */
  function IncludeInstructions(flag: Option<bool>): (included: bool)
    ensures included <==> flag == Some(true)
  {
    flag.Some? && flag.value
  }

  class PromptService {
    const memoryService: Memories.MemoryService

    constructor (memoryService: Memories.MemoryService)
      ensures this.memoryService == memoryService
    {
      this.memoryService := memoryService;
    }

    /** generatePrompt: the user's best memories under the effective limit, rendered
        around the task; the count is the number of memories handed to the
        renderer. */
    method GeneratePrompt(userId: string, task: string, contextLimit: Option<int>, includeSystemInstructions: Option<bool>)
      returns (response: GeneratePromptResponse)
      ensures var limit := ContextLimit(contextLimit);
        var ms := Memories.QueryContext(memoryService.repository, userId, task, limit).value;
        && response.prompt == Prompt(ms, task, IncludeInstructions(includeSystemInstructions))
        && response.contextMemoriesUsed == |ms|
      ensures var limit, owned := ContextLimit(contextLimit), |Memories.FindByUserId(memoryService.repository, userId)|;
        response.contextMemoriesUsed == if limit < owned then limit else owned
    {
      var limit := ContextLimit(contextLimit);
      var includeInstructions := IncludeInstructions(includeSystemInstructions);
      var contextMemories := Memories.QueryContext(memoryService.repository, userId, task, limit).value;
      var prompt := BuildPrompt(contextMemories, task, includeInstructions);
      response := GeneratePromptResponse(prompt, |contextMemories|);
    }
  }
}
