/**
 * The frontend's state container: the React `reducer` over the cached list
 * of students and the student currently selected for viewing or editing.
 * The reducer is pure; it builds a new state and never changes its input.
 */
module Client {
  import opened Records

  /** `{ students, selectedStudent }`; `None` stands for the initial `null`. */
  datatype State = State(students: seq<Record>, selected: Option<Record>)

  /** `initialState`: no students cached, none selected. */
  const Initial: State := State([], None)

  /**
   * The actions the views dispatch, by their `type` tag. `Unrecognised`
   * stands for an action whose tag is none of the five names.
   */
  datatype Action =
    | SetStudents(list: seq<Record>)      // 'SET_STUDENTS'
    | AddStudent(student: Record)         // 'ADD_STUDENT'
    | UpdateStudent(student: Record)      // 'UPDATE_STUDENT'
    | DeleteStudent(id: string)           // 'DELETE_STUDENT'
    | SetSelected(student: Record)        // 'SET_SELECTED'
    | Unrecognised(kind: string)          // default

  /**
   * `s.map(x => x.id === p.id ? p : x)`: every record whose id equals the
   * payload's (two absent ids are equal, as `undefined === undefined`) is
   * replaced by the payload; the rest stay in place.
   */
  function ReplaceMatching(s: seq<Record>, p: Record): (r: seq<Record>)
    ensures |r| == |s|
    ensures forall i :: 0 <= i < |s| && IdOf(s[i]) == IdOf(p) ==> r[i] == p
    ensures forall i :: 0 <= i < |s| && IdOf(s[i]) != IdOf(p) ==> r[i] == s[i]
  {
    if s == [] then []
    else [if IdOf(s[0]) == IdOf(p) then p else s[0]] + ReplaceMatching(s[1..], p)
  }

  /** The reducer: each action changes only its own field of the state. */
  function Reduce(st: State, a: Action): (r: State)
    ensures !a.SetSelected? ==> r.selected == st.selected
    ensures a.SetSelected? ==> r.students == st.students && r.selected == Some(a.student)
    ensures a.Unrecognised? ==> r == st
  {
    match a
    case SetStudents(list) => st.(students := list)
    case AddStudent(p) => st.(students := st.students + [p])
    case UpdateStudent(p) => st.(students := ReplaceMatching(st.students, p))
    case DeleteStudent(id) => st.(students := Without(st.students, id))
    case SetSelected(p) => st.(selected := Some(p))
    case Unrecognised(_) => st
  }

  /** SET_STUDENTS replaces the cached list wholesale. */
  lemma ReduceSetStudents(st: State, list: seq<Record>)
    ensures Reduce(st, SetStudents(list)) == State(list, st.selected)
  {
  }

  /** ADD_STUDENT appends the payload at the end and leaves every earlier entry alone. */
  lemma ReduceAddStudent(st: State, p: Record)
    ensures var r := Reduce(st, AddStudent(p)).students;
            |r| == |st.students| + 1 && r[|st.students|] == p &&
            forall i :: 0 <= i < |st.students| ==> r[i] == st.students[i]
  {
  }

  /** Replacing with the same payload twice is replacing once. */
  lemma ReduceUpdateIdempotent(st: State, p: Record)
    ensures Reduce(Reduce(st, UpdateStudent(p)), UpdateStudent(p)) == Reduce(st, UpdateStudent(p))
  {
    var once := ReplaceMatching(st.students, p);
    var twice := ReplaceMatching(once, p);
    assert |twice| == |once|;
    forall i | 0 <= i < |once| ensures twice[i] == once[i] {
    }
  }

  /** UPDATE_STUDENT with a payload whose id nobody has leaves the state unchanged. */
  lemma ReduceUpdateAbsent(st: State, p: Record)
    requires forall i :: 0 <= i < |st.students| ==> IdOf(st.students[i]) != IdOf(p)
    ensures Reduce(st, UpdateStudent(p)) == st
  {
    var r := ReplaceMatching(st.students, p);
    assert |r| == |st.students|;
    forall i | 0 <= i < |r| ensures r[i] == st.students[i] {
    }
  }

  /** DELETE_STUDENT is idempotent. */
  lemma ReduceDeleteIdempotent(st: State, id: string)
    ensures Reduce(Reduce(st, DeleteStudent(id)), DeleteStudent(id)) == Reduce(st, DeleteStudent(id))
  {
    WithoutIdempotent(st.students, id);
  }

  /**
   * DELETE_STUDENT undoes an ADD_STUDENT of a record with that id: the list is
   * as if the add had not happened and the delete had run alone.
   */
  lemma ReduceAddThenDelete(st: State, p: Record, id: string)
    requires HasId(p, id)
    ensures Reduce(Reduce(st, AddStudent(p)), DeleteStudent(id)) == Reduce(st, DeleteStudent(id))
  {
    WithoutConcat(st.students, [p], id);
    WithoutSingle(p, id);
  }
}
