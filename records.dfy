/**
 * Student records as both the server and the client handle them: plain
 * JavaScript objects whose fields are all strings (`id`, `name`, `needs`,
 * `report`, and whatever else a request body carried).
 */
module Records {

  /** A student record: field name to field value. */
  type Record = map<string, string>

  datatype Option<+T> = None | Some(value: T)

  /** The field that identifies a student. */
  const IdKey: string := "id"

  /** `r.id`: `None` stands for JavaScript's `undefined` when the field is absent. */
  function IdOf(r: Record): (o: Option<string>)
    ensures o.None? <==> IdKey !in r
    ensures o.Some? ==> o.value == r[IdKey]
  {
    if IdKey in r then Some(r[IdKey]) else None
  }

  /** `r.id === id` for a string `id`: an absent field never matches. */
  predicate HasId(r: Record, id: string)
    ensures HasId(r, id) <==> IdKey in r && r[IdKey] == id
  {
    IdOf(r) == Some(id)
  }

  /**
   * Object spread `{ ...base, ...body }`: a shallow merge in which the
   * fields of `body` win and the other fields of `base` are kept.
   */
  function Merge(base: Record, body: Record): (r: Record)
    ensures r.Keys == base.Keys + body.Keys
    ensures forall k :: k in body ==> r[k] == body[k]
    ensures forall k :: k in base && k !in body ==> r[k] == base[k]
  {
    base + body
  }

  /**
   * `s.filter(x => x.id !== id)`: every record with that id is dropped, every
   * other record is kept.
   */
  function Without(s: seq<Record>, id: string): (r: seq<Record>)
    ensures |r| <= |s|
    ensures forall i :: 0 <= i < |r| ==> !HasId(r[i], id)
  {
    if s == [] then []
    else if HasId(s[0], id) then Without(s[1..], id)
    else [s[0]] + Without(s[1..], id)
  }

  /** The filter adds nothing, keeps no record carrying the id and keeps every record not carrying it. */
  lemma {:induction false} WithoutMembers(s: seq<Record>, id: string)
    ensures |Without(s, id)| <= |s|
    ensures forall x :: x in Without(s, id) ==> x in s && !HasId(x, id)
    ensures forall x :: x in s && !HasId(x, id) ==> x in Without(s, id)
  {
    if s != [] {
      WithoutMembers(s[1..], id);
      assert s == [s[0]] + s[1..];
    }
  }

  /** Filtering distributes over concatenation, so the kept records stay in their order. */
  lemma {:induction false} WithoutConcat(a: seq<Record>, b: seq<Record>, id: string)
    ensures Without(a + b, id) == Without(a, id) + Without(b, id)
  {
    if a == [] {
      assert a + b == b;
    } else {
      var ab := a + b;
      assert ab[0] == a[0] && ab[1..] == a[1..] + b;
      WithoutConcat(a[1..], b, id);
      if HasId(a[0], id) {
        assert Without(ab, id) == Without(a[1..] + b, id);
        assert Without(a, id) == Without(a[1..], id);
      } else {
        assert Without(ab, id) == [a[0]] + (Without(a[1..], id) + Without(b, id));
        assert Without(a, id) == [a[0]] + Without(a[1..], id);
      }
    }
  }

  /** On one record the filter keeps it exactly when it does not carry the id; with WithoutConcat this pins the filter down. */
  lemma WithoutSingle(x: Record, id: string)
    ensures Without([x], id) == if HasId(x, id) then [] else [x]
  {
    assert [x][1..] == [];
  }

  /** Filtering out an id that no record carries changes nothing. */
  lemma {:induction false} WithoutAbsent(s: seq<Record>, id: string)
    requires forall i :: 0 <= i < |s| ==> !HasId(s[i], id)
    ensures Without(s, id) == s
  {
    if s != [] {
      WithoutAbsent(s[1..], id);
      assert [s[0]] + s[1..] == s;
    }
  }

  /** Deleting twice is deleting once. */
  lemma WithoutIdempotent(s: seq<Record>, id: string)
    ensures Without(Without(s, id), id) == Without(s, id)
  {
    var t := Without(s, id);
    WithoutMembers(s, id);
    forall i | 0 <= i < |t| ensures !HasId(t[i], id) {
      assert t[i] in t;
    }
    WithoutAbsent(t, id);
  }

  /** No two records share an id (records without an id are not compared). */
  ghost predicate UniqueIds(s: seq<Record>)
  {
    forall i, j :: 0 <= i < |s| && 0 <= j < |s| && IdOf(s[i]).Some? && IdOf(s[i]) == IdOf(s[j]) ==> i == j
  }

  /** A sequence with a record in front has unique ids exactly when the rest does and the front id is not repeated. */
  lemma UniqueIdsCons(x: Record, t: seq<Record>)
    ensures UniqueIds([x] + t) <==>
            UniqueIds(t) && (IdOf(x).Some? ==> forall y :: y in t ==> IdOf(y) != IdOf(x))
  {
    var s := [x] + t;
    if UniqueIds(s) {
      forall i, j | 0 <= i < |t| && 0 <= j < |t| && IdOf(t[i]).Some? && IdOf(t[i]) == IdOf(t[j])
        ensures i == j
      {
        assert s[i + 1] == t[i] && s[j + 1] == t[j];
      }
      forall y | y in t && IdOf(x).Some? ensures IdOf(y) != IdOf(x) {
        var k :| 0 <= k < |t| && t[k] == y;
        assert s[k + 1] == y && s[0] == x;
      }
    }
    if UniqueIds(t) && (IdOf(x).Some? ==> forall y :: y in t ==> IdOf(y) != IdOf(x)) {
      forall i, j | 0 <= i < |s| && 0 <= j < |s| && IdOf(s[i]).Some? && IdOf(s[i]) == IdOf(s[j])
        ensures i == j
      {
        if i > 0 && j > 0 {
          assert s[i] == t[i - 1] && s[j] == t[j - 1];
        }
      }
    }
  }

  /** Deleting keeps ids unique. */
  lemma {:induction false} WithoutKeepsUnique(s: seq<Record>, id: string)
    requires UniqueIds(s)
    ensures UniqueIds(Without(s, id))
  {
    if s != [] {
      assert s == [s[0]] + s[1..];
      UniqueIdsCons(s[0], s[1..]);
      WithoutKeepsUnique(s[1..], id);
      if !HasId(s[0], id) {
        WithoutMembers(s[1..], id);
        UniqueIdsCons(s[0], Without(s[1..], id));
      }
    }
  }
}
