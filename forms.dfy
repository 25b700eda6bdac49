/** Pieces shared by the two authentication forms: an optional value and the
    rule both forms use to find the first field the user left empty. */
module Forms {

  datatype Option<+T> = None | Some(value: T)

  /** Every field listed in `fields` has an entry in `info`. */
  predicate Covers<K>(fields: seq<K>, info: map<K, string>)
  {
    forall i :: 0 <= i < |fields| ==> fields[i] in info
  }

  /** The first field of `fields`, in order, that is not in `skip` and whose
      value in `info` is the empty string; None when there is none. Both forms
      walk the entries of their state object in this way. A field it finds is
      one of the listed fields, is not skipped, and is empty. */
  function FirstEmpty<K>(fields: seq<K>, info: map<K, string>, skip: set<K>): (r: Option<K>)
    requires Covers(fields, info)
    ensures r.Some? ==> r.value in fields && r.value !in skip && info[r.value] == ""
  {
    if fields == [] then None
    else if fields[0] !in skip && info[fields[0]] == "" then Some(fields[0])
    else FirstEmpty(fields[1..], info, skip)
  }

  /** Position `i` of `fields` holds a field the search looks at and finds empty. */
  predicate EmptyAt<K>(fields: seq<K>, info: map<K, string>, skip: set<K>, i: int)
    requires Covers(fields, info)
  {
    0 <= i < |fields| && fields[i] !in skip && info[fields[i]] == ""
  }

  /** No search is answered with None while some looked-at field is empty. */
  lemma {:induction false} FirstEmptyNoneIff<K>(fields: seq<K>, info: map<K, string>, skip: set<K>)
    requires Covers(fields, info)
    ensures FirstEmpty(fields, info, skip).None? <==>
            forall i :: 0 <= i < |fields| ==> !EmptyAt(fields, info, skip, i)
  {
    if fields != [] {
      FirstEmptyNoneIff(fields[1..], info, skip);
      forall i | 1 <= i < |fields|
        ensures EmptyAt(fields, info, skip, i) <==> EmptyAt(fields[1..], info, skip, i - 1)
      {
        assert fields[1..][i - 1] == fields[i];
      }
      if !EmptyAt(fields, info, skip, 0) && FirstEmpty(fields, info, skip).None? {
        forall i | 0 <= i < |fields| ensures !EmptyAt(fields, info, skip, i) {
          if i > 0 {
            assert !EmptyAt(fields[1..], info, skip, i - 1);
          }
        }
      }
      if forall i :: 0 <= i < |fields| ==> !EmptyAt(fields, info, skip, i) {
        forall i | 0 <= i < |fields| - 1 ensures !EmptyAt(fields[1..], info, skip, i) {
          assert !EmptyAt(fields, info, skip, i + 1);
        }
      }
    }
  }

  /** A Some answer names the earliest looked-at field that is empty. */
  lemma {:induction false} FirstEmptySomeIsFirst<K>(fields: seq<K>, info: map<K, string>, skip: set<K>)
    requires Covers(fields, info)
    requires FirstEmpty(fields, info, skip).Some?
    ensures exists i :: EmptyAt(fields, info, skip, i) &&
                        fields[i] == FirstEmpty(fields, info, skip).value &&
                        forall j :: 0 <= j < i ==> !EmptyAt(fields, info, skip, j)
  {
    if fields[0] !in skip && info[fields[0]] == "" {
      assert EmptyAt(fields, info, skip, 0);
    } else {
      FirstEmptySomeIsFirst(fields[1..], info, skip);
      var k :| EmptyAt(fields[1..], info, skip, k) &&
               fields[1..][k] == FirstEmpty(fields[1..], info, skip).value &&
               forall j :: 0 <= j < k ==> !EmptyAt(fields[1..], info, skip, j);
      assert EmptyAt(fields, info, skip, k + 1);
      forall j | 0 <= j < k + 1 ensures !EmptyAt(fields, info, skip, j) {
        if j > 0 {
          assert !EmptyAt(fields[1..], info, skip, j - 1);
        }
      }
    }
  }

  /** A field at position `i` that the search passes over (it is skipped, or
      it is not empty) does not change the answer of the search started
      there: the step that keeps the invariant of the loops implementing the
      search. */
  lemma {:induction false} FirstEmptySuffix<K>(fields: seq<K>, info: map<K, string>, skip: set<K>, i: nat)
    requires Covers(fields, info)
    requires i < |fields|
    requires !EmptyAt(fields, info, skip, i)
    ensures Covers(fields[i..], info) && Covers(fields[i + 1..], info)
    ensures FirstEmpty(fields[i..], info, skip) == FirstEmpty(fields[i + 1..], info, skip)
  {
    assert fields[i..][1..] == fields[i + 1..];
  }
}
