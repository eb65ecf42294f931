/**
 * How the client's cached list follows the server's store. After each
 * successful request the views dispatch the server's answer: ADD_STUDENT
 * with the created record, UPDATE_STUDENT with the merged record,
 * DELETE_STUDENT with the deleted id. These lemmas say when the cache then
 * equals the store again.
 */
module Sync {
  import opened Records
  import opened Server
  import opened Client

  /**
   * The list view deletes a row by that row's `student.id`. Every stored
   * record has an id, so the id sent is a string; after the server's delete,
   * DELETE_STUDENT of it makes the cache equal the store again, and the row
   * is gone from both.
   */
  lemma MirrorDeleteListed(s: seq<Record>, sel: Option<Record>, k: nat)
    requires AllHaveIds(s) && k < |s|
    ensures IdOf(s[k]).Some?
    ensures var id := IdOf(s[k]).value;
            && Reduce(State(s, sel), DeleteStudent(id)) == State(Without(s, id), sel)
            && s[k] !in Without(s, id)
  {
    var id := IdOf(s[k]).value;
    WithoutMembers(s, id);
  }

  /**
   * The server's update rewrites only the first matching slot while the
   * reducer rewrites every match; with unique ids and a body that does not
   * rename the record the two agree.
   */
  lemma {:induction false} MirrorUpdate(s: seq<Record>, sel: Option<Record>, id: string, body: Record)
    requires UniqueIds(s)
    requires FirstIndexOf(s, id).Some?
    requires IdKey in body ==> body[IdKey] == id
    ensures var i := FirstIndexOf(s, id).value;
            var merged := Merge(s[i], body);
            Reduce(State(s, sel), UpdateStudent(merged)) == State(s[i := merged], sel)
  {
    var i := FirstIndexOf(s, id).value;
    var merged := Merge(s[i], body);
    assert IdOf(merged) == Some(id);
    var cache := ReplaceMatching(s, merged);
    assert |cache| == |s[i := merged]|;
    forall j | 0 <= j < |s| ensures cache[j] == s[i := merged][j] {
    }
  }

  /**
   * Without unique ids they part: two records share id "7", the server's
   * update changes the first only, the reducer overwrites both.
   */
  lemma DuplicateIdsDiverge()
    ensures var s := [map["id" := "7", "name" := "A"], map["id" := "7", "name" := "B"]];
            var merged := Merge(s[0], map["name" := "C"]);
            Reduce(State(s, None), UpdateStudent(merged)).students != s[0 := merged]
  {
    var s := [map["id" := "7", "name" := "A"], map["id" := "7", "name" := "B"]];
    var merged := Merge(s[0], map["name" := "C"]);
    var cache := ReplaceMatching(s, merged);
    assert IdOf(s[1]) == IdOf(merged);
    assert cache[1]["name"] == "C" != "B" == s[0 := merged][1]["name"];
  }
}
