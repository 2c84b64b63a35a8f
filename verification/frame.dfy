/**
 The two pandas idioms app.py uses to look a row up in a table:
 `df[mask]` keeps, in table order, the rows the boolean mask marks, and
 `.iloc[0]` then takes the first of them. A table is a sequence of rows and
 a mask is a predicate on rows.
 */
module Frame {

  datatype Option<T> = None | Some(value: T)

  /** `df[mask]`: the rows of `rows` that `keep` marks, in their original order. */
  function Select<T>(rows: seq<T>, keep: T -> bool): (r: seq<T>)
    ensures |r| <= |rows|
    ensures forall k :: 0 <= k < |r| ==> keep(r[k]) && r[k] in rows
    ensures forall j :: 0 <= j < |rows| && keep(rows[j]) ==> rows[j] in r
  {
    if rows == [] then []
    else (if keep(rows[0]) then [rows[0]] else []) + Select(rows[1..], keep)
  }

  /** Filtering keeps table order: the kept rows of two tables one after the
      other are the kept rows of the first, then those of the second. */
  lemma {:induction false} SelectAppend<T>(a: seq<T>, b: seq<T>, keep: T -> bool)
    ensures Select(a + b, keep) == Select(a, keep) + Select(b, keep)
  {
    if a == [] {
      assert a + b == b;
    } else {
      assert (a + b)[1..] == a[1..] + b;
      SelectAppend(a[1..], b, keep);
    }
  }

  /** The position of the first row that `keep` marks, if there is one. */
  function FirstIndex<T>(rows: seq<T>, keep: T -> bool): (r: Option<nat>)
    ensures r.Some? ==> r.value < |rows| && keep(rows[r.value])
    ensures r.Some? ==> forall j :: 0 <= j < r.value ==> !keep(rows[j])
    ensures r.None? ==> forall j :: 0 <= j < |rows| ==> !keep(rows[j])
  {
    if rows == [] then None
    else if keep(rows[0]) then Some(0)
    else match FirstIndex(rows[1..], keep)
      case None => None
      case Some(i) => Some(i + 1)
  }

  /** `df[mask]` is empty exactly when no row is marked, and otherwise its
      `.iloc[0]` is the first marked row of the whole table. */
  lemma {:induction false} SelectFirst<T>(rows: seq<T>, keep: T -> bool)
    ensures Select(rows, keep) == [] <==> FirstIndex(rows, keep).None?
    ensures FirstIndex(rows, keep).Some? ==>
              Select(rows, keep)[0] == rows[FirstIndex(rows, keep).value]
  {
    if rows != [] {
      SelectFirst(rows[1..], keep);
      if keep(rows[0]) {
        assert Select(rows, keep) == [rows[0]] + Select(rows[1..], keep);
      } else {
        assert Select(rows, keep) == Select(rows[1..], keep);
      }
    }
  }

  /** A marked row with no marked row before it is the first match. */
  lemma FirstIndexAt<T>(rows: seq<T>, keep: T -> bool, i: nat)
    requires i < |rows| && keep(rows[i])
    requires forall j :: 0 <= j < i ==> !keep(rows[j])
    ensures FirstIndex(rows, keep) == Some(i)
  {
  }

  /** The marked row a first-match scan settles on does not depend on the rows after it. */
  lemma FirstIndexIgnoresLater<T>(rows: seq<T>, keep: T -> bool, later: seq<T>)
    requires FirstIndex(rows, keep).Some?
    ensures FirstIndex(rows + later, keep) == FirstIndex(rows, keep)
  {
    var i := FirstIndex(rows, keep).value;
    assert (rows + later)[i] == rows[i];
    assert forall j :: 0 <= j < i ==> (rows + later)[j] == rows[j];
  }
}
