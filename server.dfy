/**
 * The backend's record store: the module-level `students` array of the
 * Express server and its five handlers (list, create, read one, update,
 * delete). HTTP routing, status codes and JSON serialisation are not part
 * of this model; a handler's outcome is a `Lookup` value, which the HTTP
 * layer turns into 200 or 404.
 */
module Server {
  import opened Records

  /** What read-one and update answer: the record, or "not found" (a 404 over HTTP). */
  datatype Lookup = Found(student: Record) | NotFound

  /**
   * `s.findIndex(x => x.id === id)`, with `None` for JavaScript's -1:
   * the index of the first record carrying the id.
   */
  function FirstIndexOf(s: seq<Record>, id: string): (r: Option<nat>)
    ensures r.Some? ==> r.value < |s| && HasId(s[r.value], id)
    ensures r.Some? ==> forall j :: 0 <= j < r.value ==> !HasId(s[j], id)
    ensures r.None? <==> forall j :: 0 <= j < |s| ==> !HasId(s[j], id)
  {
    if s == [] then None
    else if HasId(s[0], id) then Some(0)
    else match FirstIndexOf(s[1..], id)
      case None => None
      case Some(i) => Some(i + 1)
  }

  /** Appending a record never changes where an earlier match is found. */
  lemma {:induction false} FirstIndexOfAppend(s: seq<Record>, x: Record, id: string)
    ensures FirstIndexOf(s + [x], id) ==
            if FirstIndexOf(s, id).Some? then FirstIndexOf(s, id)
            else if HasId(x, id) then Some(|s|)
            else None
  {
    if s != [] {
      assert (s + [x])[1..] == s[1..] + [x];
      FirstIndexOfAppend(s[1..], x, id);
    }
  }

  /**
   * `{ id: freshId, ...body }`: the body's fields with `id` defaulting to the
   * fresh token; an `id` inside the body overrides the token.
   */
  function NewRecord(freshId: string, body: Record): (r: Record)
    ensures r.Keys == body.Keys + {IdKey}
    ensures forall k :: k in body ==> r[k] == body[k]
    ensures IdKey !in body ==> r[IdKey] == freshId
  {
    Merge(map[IdKey := freshId], body)
  }

  /** The two records the server starts with, ids "1" then "2". */
  function Seed(): (s: seq<Record>)
    ensures |s| == 2 && HasId(s[0], "1") && HasId(s[1], "2")
    ensures forall i :: 0 <= i < |s| ==> s[i].Keys == {"id", "name", "needs", "report"}
  {
    [ map["id" := "1", "name" := "Juan P\U{e9}rez", "needs" := "TDAH", "report" := "Informe 1"],
      map["id" := "2", "name" := "Mar\U{ed}a L\U{f3}pez", "needs" := "Sordera", "report" := "Informe 2"] ]
  }

  /** Every record in the store has an `id` field. */
  ghost predicate AllHaveIds(s: seq<Record>)
  {
    forall i :: 0 <= i < |s| ==> IdKey in s[i]
  }

  /** The process-wide store of student records and its request handlers. */
  class Store {
    var students: seq<Record>

    ghost predicate Valid()
      reads this
    {
      AllHaveIds(students)
    }

    /** The store as the server process starts it. */
    constructor ()
      ensures Valid()
      ensures students == Seed()
    {
      students := Seed();
    }

    /** GET /students: the whole store, in insertion order, unchanged. */
    method List() returns (all: seq<Record>)
      ensures all == students
    {
      all := students;
    }

    /** POST /students: builds the record from the body and the fresh token and appends it. */
    method Create(freshId: string, body: Record) returns (created: Record)
      requires Valid()
      modifies this
      ensures Valid()
      ensures created == NewRecord(freshId, body)
      ensures students == old(students) + [created]
    {
      created := NewRecord(freshId, body);
      students := students + [created];
    }

    /** GET /students/:id: the first record with the id, or not found; the store is unchanged. */
    method Read(id: string) returns (r: Lookup)
      ensures FirstIndexOf(students, id).None? ==> r == NotFound
      ensures FirstIndexOf(students, id).Some? ==> r == Found(students[FirstIndexOf(students, id).value])
    {
      match FirstIndexOf(students, id)
      case None =>
        r := NotFound;
      case Some(i) =>
        r := Found(students[i]);
    }

    /**
     * PUT /students/:id: merges the body over the first record with the id,
     * in its slot, and answers the merged record; not found leaves the store alone.
     */
    method Update(id: string, body: Record) returns (r: Lookup)
      requires Valid()
      modifies this
      ensures Valid()
      ensures FirstIndexOf(old(students), id).None? ==> r == NotFound && students == old(students)
      ensures FirstIndexOf(old(students), id).Some? ==>
                var i := FirstIndexOf(old(students), id).value;
                && students == old(students)[i := Merge(old(students)[i], body)]
                && r == Found(students[i])
    {
      match FirstIndexOf(students, id)
      case None =>
        r := NotFound;
      case Some(i) =>
        students := students[i := Merge(students[i], body)];
        r := Found(students[i]);
    }

    /** DELETE /students/:id: drops every record with the id; it never fails. */
    method Delete(id: string)
      requires Valid()
      modifies this
      ensures Valid()
      ensures students == Without(old(students), id)
    {
      DeleteKeepsIds(students, id);
      students := Without(students, id);
    }
  }

  /** Filtering keeps only stored records, so every survivor still has an id. */
  lemma DeleteKeepsIds(s: seq<Record>, id: string)
    requires AllHaveIds(s)
    ensures AllHaveIds(Without(s, id))
  {
    var t := Without(s, id);
    WithoutMembers(s, id);
    forall i | 0 <= i < |t| ensures IdKey in t[i] {
      assert t[i] in s;
    }
  }

  /**
   * Create followed by read of the new record's id finds that record, with
   * every field of the body, provided no earlier record had the id.
   */
  lemma CreateThenRead(s: seq<Record>, freshId: string, body: Record)
    requires forall j :: 0 <= j < |s| ==> !HasId(s[j], NewRecord(freshId, body)[IdKey])
    ensures var created := NewRecord(freshId, body);
            && FirstIndexOf(s + [created], created[IdKey]) == Some(|s|)
            && (forall k :: k in body ==> created[k] == body[k])
  {
    var created := NewRecord(freshId, body);
    FirstIndexOfAppend(s, created, created[IdKey]);
  }

  /**
   * Update leaves where the id is found in place when the body does not
   * rename the record, so a later read answers the merged record.
   */
  lemma {:induction false} UpdateThenRead(s: seq<Record>, id: string, body: Record)
    requires FirstIndexOf(s, id).Some?
    requires IdKey in body ==> body[IdKey] == id
    ensures var i := FirstIndexOf(s, id).value;
            FirstIndexOf(s[i := Merge(s[i], body)], id) == Some(i)
  {
    var i := FirstIndexOf(s, id).value;
    var t := s[i := Merge(s[i], body)];
    assert HasId(t[i], id);
    forall j | 0 <= j < i ensures !HasId(t[j], id) {
      assert t[j] == s[j];
    }
    FirstIndexOfUnique(t, id, i);
  }

  /** The first index is determined by "matches, and nothing before it does". */
  lemma FirstIndexOfUnique(s: seq<Record>, id: string, i: nat)
    requires i < |s| && HasId(s[i], id)
    requires forall j :: 0 <= j < i ==> !HasId(s[j], id)
    ensures FirstIndexOf(s, id) == Some(i)
  {
  }

  /** After delete, read of the same id finds nothing. */
  lemma DeleteThenRead(s: seq<Record>, id: string)
    ensures FirstIndexOf(Without(s, id), id).None?
  {
    var t := Without(s, id);
    WithoutMembers(s, id);
    forall j | 0 <= j < |t| ensures !HasId(t[j], id) {
      assert t[j] in t;
    }
  }

  /** Update of an id that is not renamed by the body keeps ids unique. */
  lemma UpdateKeepsUnique(s: seq<Record>, id: string, body: Record)
    requires UniqueIds(s)
    requires FirstIndexOf(s, id).Some?
    requires IdKey in body ==> body[IdKey] == id
    ensures var i := FirstIndexOf(s, id).value;
            UniqueIds(s[i := Merge(s[i], body)])
  {
    var i := FirstIndexOf(s, id).value;
    var t := s[i := Merge(s[i], body)];
    assert IdOf(t[i]) == IdOf(s[i]);
    forall j | 0 <= j < |t| ensures IdOf(t[j]) == IdOf(s[j]) {
    }
  }

  /** Create keeps ids unique when the new record's id was not in use. */
  lemma CreateKeepsUnique(s: seq<Record>, freshId: string, body: Record)
    requires UniqueIds(s)
    requires forall j :: 0 <= j < |s| ==> !HasId(s[j], NewRecord(freshId, body)[IdKey])
    ensures UniqueIds(s + [NewRecord(freshId, body)])
  {
    var t := s + [NewRecord(freshId, body)];
    forall i, j | 0 <= i < |t| && 0 <= j < |t| && IdOf(t[i]).Some? && IdOf(t[i]) == IdOf(t[j])
      ensures i == j
    {
      if i < |s| && j < |s| {
        assert t[i] == s[i] && t[j] == s[j];
      }
    }
  }

  /** From the seeded store, delete of id "1" leaves only the second seed record. */
  lemma SeedDeleteFirst()
    ensures Without(Seed(), "1") == [Seed()[1]]
  {
    var s := Seed();
    assert s == [s[0]] + [s[1]];
    WithoutConcat([s[0]], [s[1]], "1");
    WithoutSingle(s[0], "1");
    WithoutSingle(s[1], "1");
  }
}
