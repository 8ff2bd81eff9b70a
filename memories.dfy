/** The memory service of package com.continuum.memory: typed memory rows, keyword
    ranking with a recency tie-break, and supersession of older preferences when a
    newer preference on the same topic arrives. */
module Memories {
  import opened Wrappers
  import opened Text
  import opened Seqs
  import StableSort
  import Repository
  import opened Scoring

  /** A row of the memories table. kind is the type column; createdAt is the
      creation timestamp the persistence layer assigns, when there is one. */
  datatype Memory = Memory(
    id: string,
    userId: string,
    source: string,
    content: Option<string>,
    kind: Option<string>,
    topic: Option<string>,
    tags: Option<string>,
    importance: Option<int>,
    active: bool,
    supersededById: Option<string>,
    createdAt: Option<int>)

  /** MemoryDto.CreateMemoryRequest, the fields the service reads. */
  datatype CreateMemoryRequest = CreateMemoryRequest(
    userId: string,
    source: string,
    content: string,
    kind: Option<string>,
    topic: Option<string>,
    tags: Option<string>,
    importance: Option<int>)

  /** MemoryDto.MemoryResponse */
  datatype MemoryResponse = MemoryResponse(
    id: string,
    userId: string,
    workspaceId: Option<string>,
    source: string,
    content: Option<string>,
    kind: Option<string>,
    topic: Option<string>,
    tags: Option<string>,
    importance: Option<int>,
    active: bool)

  function MemoryId(m: Memory): string {
    m.id
  }

  /** toResponse: the response never carries a workspace. */
  function ToResponse(m: Memory): (r: MemoryResponse)
    ensures r.workspaceId.None?
  {
    MemoryResponse(m.id, m.userId, None, m.source, m.content, m.kind, m.topic, m.tags, m.importance, m.active)
  }

  /** Two rows give the same response exactly when they differ at most in
      supersededById and createdAt, the two columns toResponse drops. */
  lemma ResponseForgets(a: Memory, b: Memory)
    ensures ToResponse(a) == ToResponse(b) <==> a.(supersededById := b.supersededById, createdAt := b.createdAt) == b
  {
  }

  function ToResponses(s: seq<Memory>): (r: seq<MemoryResponse>)
    ensures |r| == |s|
    ensures forall i :: 0 <= i < |s| ==> r[i] == ToResponse(s[i])
  {
    seq(|s|, i requires 0 <= i < |s| => ToResponse(s[i]))
  }

  // ---------------------------------------------------------------------------
  // Ranking (queryContext)

  function OwnedBy(userId: string): Memory -> bool {
    (m: Memory) => m.userId == userId
  }

  /** findByUserId: the user's rows in storage order. */
  function FindByUserId(repository: seq<Memory>, userId: string): seq<Memory> {
    Filter(repository, OwnedBy(userId))
  }

  /** The comparator of queryContext returns a negative value: a scores higher, or
      scores the same and both timestamps are present and a is newer. */
  predicate RanksBefore(a: Memory, b: Memory, terms: seq<string>) {
    var sa := ScoreOf(a.content, terms);
    var sb := ScoreOf(b.content, terms);
    sa > sb || (sa == sb && a.createdAt.Some? && b.createdAt.Some? && a.createdAt.value > b.createdAt.value)
  }

  function Before(terms: seq<string>): (Memory, Memory) -> bool {
    (a, b) => RanksBefore(a, b, terms)
  }

  function ScoreKey(terms: seq<string>): Memory -> int {
    (m: Memory) => ScoreOf(m.content, terms)
  }

  /** The user's rows stably sorted by the comparator. */
  function Ranked(repository: seq<Memory>, userId: string, query: string): seq<Memory> {
    StableSort.Sort(FindByUserId(repository, userId), Before(Terms(query)))
  }

  /** queryContext: the first limit ranked rows as responses; a negative limit is
      refused by Stream.limit. */
  function QueryContext(repository: seq<Memory>, userId: string, query: string, limit: int): (r: Option<seq<MemoryResponse>>)
    ensures r.None? <==> limit < 0
    ensures r.Some? ==> |r.value| <= limit && |r.value| <= |FindByUserId(repository, userId)|
    ensures r.Some? ==> |r.value| == limit || |r.value| == |FindByUserId(repository, userId)|
    ensures r.Some? ==> forall i :: 0 <= i < |r.value| ==> r.value[i] == ToResponse(Ranked(repository, userId, query)[i])
  {
    if limit < 0 then None else Some(ToResponses(Take(Ranked(repository, userId, query), limit)))
  }

  /** Ranking only reorders: it returns the user's rows, each as often as stored. */
  lemma RankedIsPermutation(repository: seq<Memory>, userId: string, query: string)
    ensures multiset(Ranked(repository, userId, query)) == multiset(FindByUserId(repository, userId))
    ensures forall m :: m in Ranked(repository, userId, query) <==> m in repository && m.userId == userId
  {
    var r := Ranked(repository, userId, query);
    forall m ensures m in r <==> m in repository && m.userId == userId {
      FilterMember(repository, OwnedBy(userId), m);
      assert m in r <==> m in multiset(r);
    }
  }

  /** Scores never increase along the ranking, whatever the timestamps. */
  lemma RankedByScore(repository: seq<Memory>, userId: string, query: string)
    ensures forall i, j :: 0 <= i < j < |Ranked(repository, userId, query)| ==>
      ScoreOf(Ranked(repository, userId, query)[i].content, Terms(query)) >=
      ScoreOf(Ranked(repository, userId, query)[j].content, Terms(query))
  {
    var terms := Terms(query);
    assert StableSort.RanksBy(Before(terms), ScoreKey(terms));
    StableSort.SortDescending(FindByUserId(repository, userId), Before(terms), ScoreKey(terms));
  }

  /** When every row of the user has a timestamp, equal scores are ordered newest first. */
  lemma RankedNewerFirst(repository: seq<Memory>, userId: string, query: string)
    requires forall m :: m in repository && m.userId == userId ==> m.createdAt.Some?
    ensures forall i, j :: 0 <= i < j < |Ranked(repository, userId, query)| ==>
      var a, b := Ranked(repository, userId, query)[i], Ranked(repository, userId, query)[j];
      ScoreOf(a.content, Terms(query)) > ScoreOf(b.content, Terms(query)) ||
      (ScoreOf(a.content, Terms(query)) == ScoreOf(b.content, Terms(query)) &&
       a.createdAt.Some? && b.createdAt.Some? && a.createdAt.value >= b.createdAt.value)
  {
    var terms := Terms(query);
    var s := FindByUserId(repository, userId);
    forall m | m in s ensures m.createdAt.Some? {
      FilterMember(repository, OwnedBy(userId), m);
    }
    StableSort.SortOrdered(s, Before(terms));
    RankedIsPermutation(repository, userId, query);
  }

  /** The rows sharing one score and one timestamp (or sharing a score and having
      none) are the ones the comparator calls equal. */
  function SameRank(terms: seq<string>, score: int, createdAt: Option<int>): Memory -> bool {
    (m: Memory) => ScoreOf(m.content, terms) == score && m.createdAt == createdAt
  }

  /** Stability: rows the comparator calls equal keep their storage order. */
  lemma RankedStable(repository: seq<Memory>, userId: string, query: string, score: int, createdAt: Option<int>)
    ensures Filter(Ranked(repository, userId, query), SameRank(Terms(query), score, createdAt)) ==
            Filter(FindByUserId(repository, userId), SameRank(Terms(query), score, createdAt))
  {
    var terms := Terms(query);
    StableSort.SortStable(FindByUserId(repository, userId), Before(terms), SameRank(terms, score, createdAt));
  }

  // ---------------------------------------------------------------------------
  // Creation and supersession (createMemory)

  /** "PREFERENCE".equalsIgnoreCase(kind), written against the lower-case name. */
  predicate IsPreferenceKind(kind: Option<string>) {
    kind.Some? && ToLower(kind.value) == "preference"
  }

  lemma PreferenceKindIgnoresCase(kind: Option<string>)
    ensures IsPreferenceKind(kind) <==> kind.Some? && EqualsIgnoreCase("PREFERENCE", kind.value)
  {
    LowerName("PREFERENCE", "preference");
  }

  /** A row that the invariant speaks about: an active preference with a non-blank topic. */
  predicate IsActivePreference(m: Memory) {
    m.active && IsPreferenceKind(m.kind) && m.topic.Some? && !IsBlank(m.topic.value)
  }

  /** At most one active preference per (user, topic). */
  ghost predicate OneActivePreference(repository: seq<Memory>) {
    forall i, j ::
      0 <= i < |repository| && 0 <= j < |repository| && i != j &&
      IsActivePreference(repository[i]) && IsActivePreference(repository[j]) &&
      repository[i].userId == repository[j].userId
      ==> repository[i].topic != repository[j].topic
  }

  /** A row that records who superseded it is inactive. */
  ghost predicate RetiredAreInactive(repository: seq<Memory>) {
    forall i :: 0 <= i < |repository| && repository[i].supersededById.Some? ==> !repository[i].active
  }

  /** The row createMemory builds: type OTHER when none or a blank one is given. */
  function NewMemory(request: CreateMemoryRequest, id: string, createdAt: Option<int>): (m: Memory)
    ensures m.kind.Some? && !IsBlank(m.kind.value)
    ensures request.kind.None? || IsBlank(request.kind.value) ==> m.kind == Some("OTHER")
    ensures request.kind.Some? && !IsBlank(request.kind.value) ==> m.kind == request.kind
    ensures m.id == id && m.userId == request.userId && m.source == request.source
    ensures m.content == Some(request.content) && m.topic == request.topic && m.tags == request.tags
    ensures m.importance == request.importance && m.createdAt == createdAt
    ensures m.active && m.supersededById.None?
  {
    var kind := if request.kind.None? || IsBlank(request.kind.value) then Some("OTHER") else request.kind;
    assert !IsBlank("OTHER") by { assert !IsWhitespace("OTHER"[0]); }
    Memory(id, request.userId, request.source, Some(request.content), kind, request.topic,
           request.tags, request.importance, true, None, createdAt)
  }

  /** The new row supersedes older ones: a preference (in any letter case) with a non-blank topic. */
  predicate SupersedesOthers(c: Memory) {
    IsPreferenceKind(c.kind) && c.topic.Some? && !IsBlank(c.topic.value)
  }

  /** The filter over findByUserId: an active preference with exactly this topic. */
  predicate IsStalePreference(m: Memory, topic: Option<string>) {
    m.kind.Some? && IsPreferenceKind(m.kind) && m.topic == topic && m.active
  }

  function StaleFor(topic: Option<string>): Memory -> bool {
    (m: Memory) => IsStalePreference(m, topic)
  }

  /** An existing row that the new row c retires. */
  predicate IsSupersededBy(m: Memory, c: Memory) {
    m.userId == c.userId && IsStalePreference(m, c.topic)
  }

  function Retire(m: Memory, successor: string): Memory {
    m.(active := false, supersededById := Some(successor))
  }

  /** The stored rows after createMemory has retired what c supersedes. */
  function Supersede(repository: seq<Memory>, c: Memory): (r: seq<Memory>)
    ensures |r| == |repository|
  {
    if SupersedesOthers(c) then
      seq(|repository|, i requires 0 <= i < |repository| =>
        if IsSupersededBy(repository[i], c) then Retire(repository[i], c.id) else repository[i])
    else repository
  }

  /** The whole table after createMemory. */
  function Created(repository: seq<Memory>, request: CreateMemoryRequest, id: string, createdAt: Option<int>): seq<Memory> {
    var c := NewMemory(request, id, createdAt);
    Supersede(repository, c) + [c]
  }

  /** createMemory appends the new row and changes an existing row only when the new
      row is a preference with a topic and the old one is an active preference of the
      same user with the same topic; such a row is deactivated and points at the new id
      and keeps every other column. */
  lemma CreatedRows(repository: seq<Memory>, request: CreateMemoryRequest, id: string, createdAt: Option<int>)
    ensures |Created(repository, request, id, createdAt)| == |repository| + 1
    ensures Created(repository, request, id, createdAt)[|repository|] == NewMemory(request, id, createdAt)
    ensures forall i :: 0 <= i < |repository| ==>
      var c, m, m' := NewMemory(request, id, createdAt), repository[i], Created(repository, request, id, createdAt)[i];
      if SupersedesOthers(c) && m.userId == c.userId && IsPreferenceKind(m.kind) && m.topic == c.topic && m.active
      then m' == m.(active := false, supersededById := Some(id))
      else m' == m
  {
    var c := NewMemory(request, id, createdAt);
    var s := Supersede(repository, c);
    assert Created(repository, request, id, createdAt) == s + [c];
    forall i | 0 <= i < |repository| ensures (s + [c])[i] == s[i] { }
  }

  /** Creation keeps at most one active preference per (user, topic). */
  lemma CreatePreservesOneActivePreference(repository: seq<Memory>, request: CreateMemoryRequest, id: string, createdAt: Option<int>)
    requires OneActivePreference(repository)
    ensures OneActivePreference(Created(repository, request, id, createdAt))
  {
    var c := NewMemory(request, id, createdAt);
    var r := Created(repository, request, id, createdAt);
    var n := |repository|;
    forall i, j | 0 <= i < |r| && 0 <= j < |r| && i != j && IsActivePreference(r[i]) && IsActivePreference(r[j]) && r[i].userId == r[j].userId
      ensures r[i].topic != r[j].topic
    {
      if i < n {
        SupersededRow(repository, c, i);
      }
      if j < n {
        SupersededRow(repository, c, j);
      }
      if i == n || j == n {
        var k := if i == n then j else i;
        assert r[n] == c && r[k] == repository[k];
      }
    }
  }

  /** Row i after supersession: it is still active only if it was active and is not
      a row that c retires. */
  lemma SupersededRow(repository: seq<Memory>, c: Memory, i: nat)
    requires i < |repository|
    ensures var m := Supersede(repository, c)[i];
      (Supersede(repository, c) + [c])[i] == m &&
      (IsActivePreference(m) ==> m == repository[i] && !(SupersedesOthers(c) && IsSupersededBy(repository[i], c))) &&
      (m == repository[i] || m == Retire(repository[i], c.id)) &&
      (!repository[i].active ==> m == repository[i])
  {
  }

  /** After a preference with a topic is created, it is the only active preference
      of its user on that topic. */
  lemma CreatedPreferenceIsOnlyActive(repository: seq<Memory>, request: CreateMemoryRequest, id: string, createdAt: Option<int>)
    requires SupersedesOthers(NewMemory(request, id, createdAt))
    ensures var c, r := NewMemory(request, id, createdAt), Created(repository, request, id, createdAt);
      forall i :: 0 <= i < |r| && IsActivePreference(r[i]) && r[i].userId == c.userId && r[i].topic == c.topic ==> i == |repository|
  {
    var c, r := NewMemory(request, id, createdAt), Created(repository, request, id, createdAt);
    forall i | 0 <= i < |repository| && IsActivePreference(r[i]) && r[i].userId == c.userId
      ensures r[i].topic != c.topic
    {
      SupersededRow(repository, c, i);
    }
  }

  /** A row that already records its successor is never changed again. */
  lemma SupersessionNeverRepoints(repository: seq<Memory>, request: CreateMemoryRequest, id: string, createdAt: Option<int>)
    requires RetiredAreInactive(repository)
    ensures forall i :: 0 <= i < |repository| && repository[i].supersededById.Some? ==>
      Created(repository, request, id, createdAt)[i] == repository[i]
  {
    var c := NewMemory(request, id, createdAt);
    assert Created(repository, request, id, createdAt) == Supersede(repository, c) + [c];
    forall i | 0 <= i < |repository| && repository[i].supersededById.Some? ensures (Supersede(repository, c) + [c])[i] == repository[i] {
      SupersededRow(repository, c, i);
    }
  }

  /** Supersession retires rows only by deactivating them. */
  lemma SupersedeKeepsRetiredInactive(before: seq<Memory>, c: Memory)
    requires RetiredAreInactive(before)
    ensures RetiredAreInactive(Supersede(before, c))
  {
    var s := Supersede(before, c);
    forall j | 0 <= j < |s| && s[j].supersededById.Some? ensures !s[j].active {
      SupersededRow(before, c, j);
    }
  }

  /** Creation keeps every row that records a successor inactive. */
  lemma CreatedKeepsRetiredInactive(repository: seq<Memory>, request: CreateMemoryRequest, id: string, createdAt: Option<int>)
    requires RetiredAreInactive(repository)
    ensures RetiredAreInactive(Created(repository, request, id, createdAt))
  {
    var c := NewMemory(request, id, createdAt);
    var s := Supersede(repository, c);
    SupersedeKeepsRetiredInactive(repository, c);
    RetiredSnoc(s, c);
  }

  lemma RetiredSnoc(s: seq<Memory>, c: Memory)
    requires RetiredAreInactive(s) && c.supersededById.None?
    ensures RetiredAreInactive(s + [c])
  {
    forall j | 0 <= j < |s| + 1 && (s + [c])[j].supersededById.Some? ensures !(s + [c])[j].active {
      assert (s + [c])[j] == s[j];
    }
  }

  /** The loop state of createMemory after i turns: the first i stale rows are
      retired, every other row is as it was. */
  ghost predicate RetiredUpTo(before: seq<Memory>, current: seq<Memory>, prefs: seq<Memory>, i: nat, newId: string)
    requires i <= |prefs|
  {
    && |current| == |before|
    && (forall j :: 0 <= j < |before| ==> current[j].id == before[j].id)
    && (forall j :: 0 <= j < |before| ==>
          current[j] == if before[j] in prefs[..i] then Retire(before[j], newId) else before[j])
  }

  /** One turn of createMemory's loop: saving the retired copy of the i-th stale row. */
  lemma RetireStep(before: seq<Memory>, current: seq<Memory>, prefs: seq<Memory>, i: nat, newId: string)
    requires Repository.UniqueIds(before, MemoryId)
    requires i < |prefs| && prefs[i] in before
    requires RetiredUpTo(before, current, prefs, i, newId)
    ensures RetiredUpTo(before, Repository.Save(current, MemoryId, Retire(prefs[i], newId)), prefs, i + 1, newId)
  {
    var stale := prefs[i];
    var k :| 0 <= k < |before| && before[k] == stale;
    assert Repository.UniqueIds(current, MemoryId);
    assert Repository.ExistsById(current, MemoryId, stale.id) by {
      assert MemoryId(current[k]) == stale.id;
    }
    Repository.SaveExisting(current, MemoryId, Retire(stale, newId));
    assert prefs[..i + 1] == prefs[..i] + [stale];
  }

  /** After the loop every stale row of the user, and only those, is retired. */
  lemma RetiredAll(before: seq<Memory>, current: seq<Memory>, memory: Memory)
    requires SupersedesOthers(memory)
    requires var prefs := Filter(FindByUserId(before, memory.userId), StaleFor(memory.topic));
      RetiredUpTo(before, current, prefs, |prefs|, memory.id)
    ensures current == Supersede(before, memory)
  {
    var prefs := Filter(FindByUserId(before, memory.userId), StaleFor(memory.topic));
    assert prefs[..|prefs|] == prefs;
    var s := Supersede(before, memory);
    forall j | 0 <= j < |before| ensures current[j] == s[j] {
      StaleMember(before, memory, before[j]);
    }
  }

  /** The stale rows createMemory collects are the rows the new one supersedes. */
  lemma StaleMember(before: seq<Memory>, memory: Memory, m: Memory)
    ensures m in Filter(FindByUserId(before, memory.userId), StaleFor(memory.topic)) <==> m in before && IsSupersededBy(m, memory)
  {
    FilterMember(FindByUserId(before, memory.userId), StaleFor(memory.topic), m);
    FilterMember(before, OwnedBy(memory.userId), m);
  }

  /** Supersession changes no id. */
  lemma SupersedeKeepsIds(before: seq<Memory>, c: Memory)
    requires Repository.UniqueIds(before, MemoryId)
    ensures forall j :: 0 <= j < |before| ==> Supersede(before, c)[j].id == before[j].id
    ensures Repository.UniqueIds(Supersede(before, c), MemoryId)
    ensures Repository.ExistsById(Supersede(before, c), MemoryId, c.id) == Repository.ExistsById(before, MemoryId, c.id)
  {
    var s := Supersede(before, c);
    forall j | 0 <= j < |s| ensures MemoryId(s[j]) == MemoryId(before[j]) {
      SupersededRow(before, c, j);
    }
  }

  /** The final save of createMemory appends the new row and keeps the table valid. */
  lemma CreatedIsValid(before: seq<Memory>, request: CreateMemoryRequest, newId: string, createdAt: Option<int>)
    requires Repository.UniqueIds(before, MemoryId) && RetiredAreInactive(before)
    requires !Repository.ExistsById(before, MemoryId, newId)
    ensures var c := NewMemory(request, newId, createdAt);
      Repository.Save(Supersede(before, c), MemoryId, c) == Created(before, request, newId, createdAt)
    ensures Repository.UniqueIds(Created(before, request, newId, createdAt), MemoryId)
    ensures RetiredAreInactive(Created(before, request, newId, createdAt))
  {
    var c := NewMemory(request, newId, createdAt);
    var s := Supersede(before, c);
    SupersedeKeepsIds(before, c);
    Repository.SaveNew(s, MemoryId, c);
    CreatedKeepsRetiredInactive(before, request, newId, createdAt);
  }

  // ---------------------------------------------------------------------------
  // Update (updateMemory)

  /** updateMemory overwrites userId, source and content and nothing else. */
  function Overwrite(m: Memory, request: CreateMemoryRequest): Memory {
    m.(userId := request.userId, source := request.source, content := Some(request.content))
  }

  function Updated(repository: seq<Memory>, id: string, request: CreateMemoryRequest): seq<Memory> {
    if Repository.ExistsById(repository, MemoryId, id) then
      var k := Repository.IndexOf(repository, MemoryId, id);
      repository[k := Overwrite(repository[k], request)]
    else repository
  }

  /** Update rewrites only the row with that id, and in it only userId, source and
      content; an unknown id changes nothing. */
  lemma UpdatedRows(repository: seq<Memory>, id: string, request: CreateMemoryRequest)
    requires Repository.UniqueIds(repository, MemoryId)
    ensures |Updated(repository, id, request)| == |repository|
    ensures forall i :: 0 <= i < |repository| ==>
      var m, m' := repository[i], Updated(repository, id, request)[i];
      if m.id == id
      then m' == m.(userId := request.userId, source := request.source, content := Some(request.content))
      else m' == m
    ensures !Repository.ExistsById(repository, MemoryId, id) ==> Updated(repository, id, request) == repository
  {
  }

  /** An update that keeps the owner keeps at most one active preference per (user, topic). */
  lemma UpdateKeepingOwnerPreservesOneActivePreference(repository: seq<Memory>, id: string, request: CreateMemoryRequest)
    requires Repository.UniqueIds(repository, MemoryId)
    requires OneActivePreference(repository)
    requires forall m :: m in repository && m.id == id ==> m.userId == request.userId
    ensures OneActivePreference(Updated(repository, id, request))
  {
    UpdatedRows(repository, id, request);
    var r := Updated(repository, id, request);
    forall i | 0 <= i < |r| ensures r[i].userId == repository[i].userId && r[i].topic == repository[i].topic
      && IsActivePreference(r[i]) == IsActivePreference(repository[i])
    {
      assert repository[i] in repository;
    }
  }

  /** updateMemory may move a row to another user and so leave that user with two
      active preferences on one topic: whenever two users each hold an active
      preference on the same topic, reassigning one of them to the other user's id
      breaks the invariant. */
  lemma UpdateCanBreakOneActivePreference(a: Memory, b: Memory, request: CreateMemoryRequest)
    requires a.id != b.id && a.userId != b.userId && a.topic == b.topic
    requires IsActivePreference(a) && IsActivePreference(b) && request.userId == a.userId
    ensures Repository.UniqueIds([a, b], MemoryId) && OneActivePreference([a, b])
    ensures !OneActivePreference(Updated([a, b], b.id, request))
  {
    UpdateSecondOfTwo(a, b, request);
    TwoRows(a, b);
    TwoRows(a, Overwrite(b, request));
  }

  /** Updating the second of two rows with different ids. */
  lemma UpdateSecondOfTwo(a: Memory, b: Memory, request: CreateMemoryRequest)
    requires a.id != b.id
    ensures Repository.UniqueIds([a, b], MemoryId)
    ensures Updated([a, b], b.id, request) == [a, Overwrite(b, request)]
  {
    var repository := [a, b];
    assert Repository.ExistsById(repository, MemoryId, b.id) by { assert MemoryId(repository[1]) == b.id; }
    assert Repository.IndexOf(repository, MemoryId, b.id) == 1;
  }

  /** The invariant on a table of two rows. */
  lemma TwoRows(a: Memory, b: Memory)
    ensures OneActivePreference([a, b]) <==>
      !(IsActivePreference(a) && IsActivePreference(b) && a.userId == b.userId && a.topic == b.topic)
  {
    var r := [a, b];
    if IsActivePreference(a) && IsActivePreference(b) && a.userId == b.userId && a.topic == b.topic {
      assert r[0] == a && r[1] == b;
    } else {
      forall i, j | 0 <= i < 2 && 0 <= j < 2 && i != j && IsActivePreference(r[i]) && IsActivePreference(r[j]) && r[i].userId == r[j].userId
        ensures r[i].topic != r[j].topic
      {
        assert (r[i] == a && r[j] == b) || (r[i] == b && r[j] == a);
      }
    }
  }

  // ---------------------------------------------------------------------------
  // The service, holding the memories table

  class MemoryService {
    var repository: seq<Memory>

    ghost predicate Valid()
      reads this
    {
      Repository.UniqueIds(repository, MemoryId) && RetiredAreInactive(repository)
    }

    /** The service over the table the repository already holds. */
    constructor (rows: seq<Memory>)
      requires Repository.UniqueIds(rows, MemoryId) && RetiredAreInactive(rows)
      ensures Valid() && repository == rows
    {
      repository := rows;
    }

    /** repository.save */
    method Save(m: Memory)
      modifies this
      ensures repository == Repository.Save(old(repository), MemoryId, m)
    {
      repository := Repository.Save(repository, MemoryId, m);
    }

    /** createMemory; newId is the fresh UUID and createdAt the timestamp the
        persistence layer assigns, if any. */
    method CreateMemory(request: CreateMemoryRequest, newId: string, createdAt: Option<int>) returns (response: MemoryResponse)
      requires Valid()
      requires !Repository.ExistsById(repository, MemoryId, newId)
      modifies this
      ensures Valid()
      ensures repository == Created(old(repository), request, newId, createdAt)
      ensures response == ToResponse(NewMemory(request, newId, createdAt))
      ensures OneActivePreference(old(repository)) ==> OneActivePreference(repository)
    {
      var memory := NewMemory(request, newId, createdAt);
      ghost var before := repository;
      if IsPreferenceKind(memory.kind) && memory.topic.Some? && !IsBlank(memory.topic.value) {
        var existingPrefs := Filter(FindByUserId(repository, request.userId), StaleFor(memory.topic));
        var i := 0;
        while i < |existingPrefs|
          invariant 0 <= i <= |existingPrefs|
          invariant RetiredUpTo(before, repository, existingPrefs, i, newId)
        {
          var stale := existingPrefs[i];
          FilterMember(FindByUserId(before, request.userId), StaleFor(memory.topic), stale);
          FilterMember(before, OwnedBy(request.userId), stale);
          RetireStep(before, repository, existingPrefs, i, newId);
          Save(Retire(stale, newId));
          i := i + 1;
        }
        RetiredAll(before, repository, memory);
      }
      CreatedIsValid(before, request, newId, createdAt);
      Save(memory);
      response := ToResponse(memory);
      if OneActivePreference(before) {
        CreatePreservesOneActivePreference(before, request, newId, createdAt);
      }
    }

    /** updateMemory: None stands for the null returned for an unknown id. */
    method UpdateMemory(id: string, request: CreateMemoryRequest) returns (response: Option<MemoryResponse>)
      requires Valid()
      modifies this
      ensures Valid()
      ensures response.None? <==> !Repository.ExistsById(old(repository), MemoryId, id)
      ensures repository == Updated(old(repository), id, request)
      ensures response.Some? ==>
        var k := Repository.IndexOf(old(repository), MemoryId, id);
        repository[k] == Overwrite(old(repository)[k], request) && response.value == ToResponse(repository[k])
    {
      var found := Repository.FindById(repository, MemoryId, id);
      if found.None? {
        return None;
      }
      var existing := Overwrite(found.value, request);
      Repository.SaveExisting(repository, MemoryId, existing);
      Save(existing);
      response := Some(ToResponse(existing));
    }

    /** getMemoryById: None stands for null. */
    function GetMemoryById(id: string): (r: Option<MemoryResponse>)
      reads this
      ensures r.None? <==> !Repository.ExistsById(repository, MemoryId, id)
      ensures r.Some? ==> r.value.id == id && exists m :: m in repository && ToResponse(m) == r.value
    {
      match Repository.FindById(repository, MemoryId, id)
      case None => None
      case Some(m) => Some(ToResponse(m))
    }

    /** deleteMemoryById */
    method DeleteMemoryById(id: string) returns (deleted: bool)
      requires Valid()
      modifies this
      ensures Valid()
      ensures deleted == Repository.ExistsById(old(repository), MemoryId, id)
      ensures !deleted ==> repository == old(repository)
      ensures deleted ==> |repository| == |old(repository)| - 1
      ensures deleted ==> forall m :: m in repository <==> m in old(repository) && m.id != id
    {
      if !Repository.ExistsById(repository, MemoryId, id) {
        return false;
      }
      Repository.DeleteExisting(repository, MemoryId, id);
      repository := Repository.DeleteById(repository, MemoryId, id);
      deleted := true;
    }
  }
}
