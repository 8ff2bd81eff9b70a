/** The older memory service of package com.continuum.api: rows of four columns,
    keyword ranking without a recency tie-break, and plain create, update and
    delete. Scoring is shared with the newer service (module Scoring). */
module ApiMemories {
  import opened Wrappers
  import opened Seqs
  import StableSort
  import Repository
  import opened Scoring

  /** A row: the columns the service reads and writes. content may be null in storage. */
  datatype Memory = Memory(id: string, userId: string, source: string, content: Option<string>)

  /** ApiModels.CreateMemoryRequest; its fields are validated as non-blank. */
  datatype CreateMemoryRequest = CreateMemoryRequest(userId: string, source: string, content: string)

  /** ApiModels.MemoryResponse */
  datatype MemoryResponse = MemoryResponse(id: string, userId: string, source: string, content: Option<string>)

  function MemoryId(m: Memory): string {
    m.id
  }

  function ToResponse(m: Memory): MemoryResponse {
    MemoryResponse(m.id, m.userId, m.source, m.content)
  }

  /** Reading a response back as a row. */
  function FromResponse(r: MemoryResponse): Memory {
    Memory(r.id, r.userId, r.source, r.content)
  }

  /** toResponse copies every column unchanged: it and FromResponse are inverses. */
  lemma ResponseRoundTrip(m: Memory, r: MemoryResponse)
    ensures FromResponse(ToResponse(m)) == m
    ensures ToResponse(FromResponse(r)) == r
    ensures ToResponse(m) == r <==> m == FromResponse(r)
  {
  }

  function ToResponses(s: seq<Memory>): (r: seq<MemoryResponse>)
    ensures |r| == |s|
    ensures forall i :: 0 <= i < |s| ==> r[i] == ToResponse(s[i])
  {
    seq(|s|, i requires 0 <= i < |s| => ToResponse(s[i]))
  }

  // ---------------------------------------------------------------------------
  // Ranking (queryContext)

  function OwnedBy(userId: string): Memory -> bool {
    (m: Memory) => m.userId == userId
  }

  /** findByUserId: the user's rows in storage order. */
  function FindByUserId(repository: seq<Memory>, userId: string): seq<Memory> {
    Filter(repository, OwnedBy(userId))
  }

  function ScoreKey(terms: seq<string>): Memory -> int {
    (m: Memory) => ScoreOf(m.content, terms)
  }

  /** The comparator Integer.compare(scoreB, scoreA) is negative: a scores higher. */
  function Before(terms: seq<string>): (Memory, Memory) -> bool {
    (a: Memory, b: Memory) => ScoreOf(a.content, terms) > ScoreOf(b.content, terms)
  }

  /** The user's rows stably sorted by descending score. */
  function Ranked(repository: seq<Memory>, userId: string, query: string): seq<Memory> {
    StableSort.Sort(FindByUserId(repository, userId), Before(Terms(query)))
  }

  /** queryContext: the first limit ranked rows as responses; a negative limit is
      refused by Stream.limit. */
  function QueryContext(repository: seq<Memory>, userId: string, query: string, limit: int): (r: Option<seq<MemoryResponse>>)
    ensures r.None? <==> limit < 0
    ensures r.Some? ==> |r.value| <= limit && |r.value| <= |FindByUserId(repository, userId)|
    ensures r.Some? ==> |r.value| == limit || |r.value| == |FindByUserId(repository, userId)|
    ensures r.Some? ==> forall i :: 0 <= i < |r.value| ==> r.value[i] == ToResponse(Ranked(repository, userId, query)[i])
  {
    if limit < 0 then None else Some(ToResponses(Take(Ranked(repository, userId, query), limit)))
  }

  /** Ranking only reorders the user's rows: nothing is added, dropped or repeated. */
  lemma RankedIsPermutation(repository: seq<Memory>, userId: string, query: string)
    ensures multiset(Ranked(repository, userId, query)) == multiset(FindByUserId(repository, userId))
    ensures forall m :: m in Ranked(repository, userId, query) <==> m in repository && m.userId == userId
  {
    var r := Ranked(repository, userId, query);
    forall m ensures m in r <==> m in repository && m.userId == userId {
      FilterMember(repository, OwnedBy(userId), m);
      assert m in r <==> m in multiset(r);
    }
  }

  /** Scores never increase along the ranking. */
  lemma RankedByScore(repository: seq<Memory>, userId: string, query: string)
    ensures forall i, j :: 0 <= i < j < |Ranked(repository, userId, query)| ==>
      ScoreOf(Ranked(repository, userId, query)[i].content, Terms(query)) >=
      ScoreOf(Ranked(repository, userId, query)[j].content, Terms(query))
  {
    var terms := Terms(query);
    assert StableSort.RanksBy(Before(terms), ScoreKey(terms));
    StableSort.SortDescending(FindByUserId(repository, userId), Before(terms), ScoreKey(terms));
  }

  function ScoreIs(terms: seq<string>, score: int): Memory -> bool {
    (m: Memory) => ScoreOf(m.content, terms) == score
  }

  /** Stability: rows with equal scores keep their storage order. */
  lemma RankedStable(repository: seq<Memory>, userId: string, query: string, score: int)
    ensures Filter(Ranked(repository, userId, query), ScoreIs(Terms(query), score)) ==
            Filter(FindByUserId(repository, userId), ScoreIs(Terms(query), score))
  {
    var terms := Terms(query);
    StableSort.SortStable(FindByUserId(repository, userId), Before(terms), ScoreIs(terms, score));
  }

  /** The limit keeps the best: every returned row scores at least as high as every
      row of the user that the limit cut off. */
  lemma QueryContextKeepsBest(repository: seq<Memory>, userId: string, query: string, limit: int)
    requires limit >= 0
    ensures var r, ranked := QueryContext(repository, userId, query, limit).value, Ranked(repository, userId, query);
      forall i, j :: 0 <= i < |r| <= j < |ranked| ==>
        ScoreOf(r[i].content, Terms(query)) >= ScoreOf(ranked[j].content, Terms(query))
  {
    RankedByScore(repository, userId, query);
  }

  // ---------------------------------------------------------------------------
  // Create, update, delete

  function NewMemory(request: CreateMemoryRequest, id: string): Memory {
    Memory(id, request.userId, request.source, Some(request.content))
  }

  /** updateMemory overwrites userId, source and content; the id stays. */
  function Overwrite(m: Memory, request: CreateMemoryRequest): Memory {
    m.(userId := request.userId, source := request.source, content := Some(request.content))
  }

  function Updated(repository: seq<Memory>, id: string, request: CreateMemoryRequest): seq<Memory> {
    if Repository.ExistsById(repository, MemoryId, id) then
      var k := Repository.IndexOf(repository, MemoryId, id);
      repository[k := Overwrite(repository[k], request)]
    else repository
  }

  /** A created row is found again under its id with the request's columns. */
  lemma CreateThenFind(repository: seq<Memory>, request: CreateMemoryRequest, id: string)
    requires Repository.UniqueIds(repository, MemoryId) && !Repository.ExistsById(repository, MemoryId, id)
    ensures Repository.FindById(repository + [NewMemory(request, id)], MemoryId, id) == Some(NewMemory(request, id))
    ensures Repository.UniqueIds(repository + [NewMemory(request, id)], MemoryId)
  {
    var r := repository + [NewMemory(request, id)];
    assert MemoryId(r[|repository|]) == id;
    var k := Repository.IndexOf(r, MemoryId, id);
    assert k == |repository|;
  }

  /** Update rewrites only the row with that id, keeps every id, and is seen by findById. */
  lemma UpdatedRows(repository: seq<Memory>, id: string, request: CreateMemoryRequest)
    requires Repository.UniqueIds(repository, MemoryId)
    ensures |Updated(repository, id, request)| == |repository|
    ensures forall i :: 0 <= i < |repository| ==>
      var m, m' := repository[i], Updated(repository, id, request)[i];
      if m.id == id then m' == Memory(m.id, request.userId, request.source, Some(request.content)) else m' == m
    ensures Repository.UniqueIds(Updated(repository, id, request), MemoryId)
    ensures Repository.ExistsById(repository, MemoryId, id) ==>
      Repository.FindById(Updated(repository, id, request), MemoryId, id) ==
      Some(Overwrite(Repository.FindById(repository, MemoryId, id).value, request))
  {
    var u := Updated(repository, id, request);
    assert forall i :: 0 <= i < |u| ==> MemoryId(u[i]) == MemoryId(repository[i]);
    if Repository.ExistsById(repository, MemoryId, id) {
      var k := Repository.IndexOf(repository, MemoryId, id);
      assert MemoryId(u[k]) == id;
      assert Repository.IndexOf(u, MemoryId, id) == k;
    }
  }

  // ---------------------------------------------------------------------------
  // The service, holding the memories table

  class MemoryService {
    var repository: seq<Memory>

    ghost predicate Valid()
      reads this
    {
      Repository.UniqueIds(repository, MemoryId)
    }

    /** The service over the table the repository already holds. */
    constructor (rows: seq<Memory>)
      requires Repository.UniqueIds(rows, MemoryId)
      ensures Valid() && repository == rows
    {
      repository := rows;
    }

    /** createMemory; newId is the fresh UUID. */
    method CreateMemory(request: CreateMemoryRequest, newId: string) returns (response: MemoryResponse)
      requires Valid()
      requires !Repository.ExistsById(repository, MemoryId, newId)
      modifies this
      ensures Valid()
      ensures repository == old(repository) + [NewMemory(request, newId)]
      ensures response == MemoryResponse(newId, request.userId, request.source, Some(request.content))
    {
      var memory := NewMemory(request, newId);
      Repository.SaveNew(repository, MemoryId, memory);
      repository := Repository.Save(repository, MemoryId, memory);
      response := ToResponse(memory);
    }

    /** updateMemory: None stands for the null returned for an unknown id. */
    method UpdateMemory(id: string, request: CreateMemoryRequest) returns (response: Option<MemoryResponse>)
      requires Valid()
      modifies this
      ensures Valid()
      ensures response.None? <==> !Repository.ExistsById(old(repository), MemoryId, id)
      ensures repository == Updated(old(repository), id, request)
      ensures response.Some? ==> response.value == MemoryResponse(id, request.userId, request.source, Some(request.content))
    {
      var found := Repository.FindById(repository, MemoryId, id);
      if found.None? {
        return None;
      }
      var existing := Overwrite(found.value, request);
      Repository.SaveExisting(repository, MemoryId, existing);
      UpdatedRows(repository, id, request);
      repository := Repository.Save(repository, MemoryId, existing);
      response := Some(ToResponse(existing));
    }

    /** getMemoryById: None stands for null. */
    function GetMemoryById(id: string): (r: Option<MemoryResponse>)
      reads this
      ensures r.None? <==> !Repository.ExistsById(repository, MemoryId, id)
      ensures r.Some? ==> r.value.id == id && FromResponse(r.value) in repository
    {
      match Repository.FindById(repository, MemoryId, id)
      case None => None
      case Some(m) => Some(ToResponse(m))
    }

    /** deleteMemoryById */
    method DeleteMemoryById(id: string) returns (deleted: bool)
      requires Valid()
      modifies this
      ensures Valid()
      ensures deleted == Repository.ExistsById(old(repository), MemoryId, id)
      ensures !deleted ==> repository == old(repository)
      ensures deleted ==> |repository| == |old(repository)| - 1
      ensures !Repository.ExistsById(repository, MemoryId, id)
      ensures forall m :: m in repository <==> m in old(repository) && m.id != id
    {
      if !Repository.ExistsById(repository, MemoryId, id) {
        forall m | m in repository ensures m.id != id { }
        return false;
      }
      Repository.DeleteExisting(repository, MemoryId, id);
      repository := Repository.DeleteById(repository, MemoryId, id);
      return true;
    }
  }
}
