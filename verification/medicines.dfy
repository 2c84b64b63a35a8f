/**
 The two medicine lookups of app.py: `search_medicine` finds a medicine by
 its exact name, ignoring case, and `search_by_filename` identifies a
 medicine from the name of an uploaded image file. Both read the medicine
 table, one row per medicine, and answer with a text reply.
 */
module Medicines {
  import opened Text
  import opened Frame

  /** A row of the medicine table: the `medicine_name`, `uses`, `side_effects`
      and `disclaimer` columns. */
  datatype Medicine = Medicine(name: string, uses: string, sideEffects: string, disclaimer: string)

  // The two messages are written as concatenations of short literals so that
  // `RepliesDiffer` can read their first characters; each is one literal in app.py.
  const NotFound: string := "Sorry, we could not find " + "information on this medicine."

  const Unidentified: string :=
    "Could not identify any " + "medicine from the filename. "
    + "Please rename the file to a medicine name (e.g., 'crocin.jpg')."

  const IdentifiedHeader: string := "**Medicine Identified from Filename:** "

  /** The mask `med_df['medicine_name'].str.lower() == q`. */
  function NameIs(q: string): Medicine -> bool {
    (m: Medicine) => Lower(m.name) == q
  }

  /** The test `med_name in filename` on the lowered name of a row. */
  function NameIn(filename: string): Medicine -> bool {
    (m: Medicine) => IsSubstring(Lower(m.name), filename)
  }

  /** The reply that describes one medicine. */
  function MedicineReply(m: Medicine): string {
    "Uses: " + m.uses + "\n\nSide Effects: " + m.sideEffects + "\n\n**Disclaimer:** " + m.disclaimer
  }

  /** The reply naming the medicine a filename was matched to. */
  function IdentifiedReply(m: Medicine): string {
    IdentifiedHeader + m.name + "\n\n" + MedicineReply(m)
  }

  /** The two replies that describe a medicine differ from the fallbacks. */
  lemma RepliesDiffer(m: Medicine)
    ensures MedicineReply(m) != NotFound
    ensures IdentifiedReply(m) != Unidentified
  {
    assert NotFound[0] == 'S';
    assert MedicineReply(m) == "Uses: " + (m.uses + "\n\nSide Effects: " + m.sideEffects + "\n\n**Disclaimer:** " + m.disclaimer);
    assert MedicineReply(m)[0] == 'U';
    assert Unidentified[0] == 'C';
    assert IdentifiedReply(m) == IdentifiedHeader + (m.name + "\n\n" + MedicineReply(m));
    assert IdentifiedReply(m)[0] == '*';
  }

  /** No row before row `i` has a lowered name occurring in `f`. */
  predicate NoEarlierHit(meds: seq<Medicine>, f: string, i: int)
    requires i <= |meds|
  {
    forall j :: 0 <= j < i ==> !IsSubstring(Lower(meds[j].name), f)
  }

  /** `search_medicine`: lower the query, keep the rows whose lowered name equals
      it and describe the first of them; otherwise the not-found message. */
  function SearchMedicine(query: string, meds: seq<Medicine>): string {
    var q := Lower(query);
    if meds != [] && q != [] then
      var relevant := Select(meds, NameIs(q));
      if relevant != [] then MedicineReply(relevant[0]) else NotFound
    else
      NotFound
  }

  /** The not-found message comes back exactly when the query is empty or no
      name in the table equals the query once both are lowered (an empty
      table has no such name). */
  lemma SearchMedicineNotFound(query: string, meds: seq<Medicine>)
    ensures SearchMedicine(query, meds) == NotFound <==>
              query == [] || forall i :: 0 <= i < |meds| ==> Lower(meds[i].name) != Lower(query)
  {
    var q := Lower(query);
    SelectFirst(meds, NameIs(q));
    var relevant := Select(meds, NameIs(q));
    if meds != [] && q != [] && relevant != [] {
      RepliesDiffer(relevant[0]);
      var i := FirstIndex(meds, NameIs(q)).value;
      assert Lower(meds[i].name) == q;
    }
  }

  /** When row `i` is the first whose lowered name equals the lowered query, the
      reply is made of that row's uses, side effects and disclaimer, in that order. */
  lemma SearchMedicineFound(query: string, meds: seq<Medicine>, i: nat)
    requires query != []
    requires i < |meds| && Lower(meds[i].name) == Lower(query)
    requires forall j :: 0 <= j < i ==> Lower(meds[j].name) != Lower(query)
    ensures SearchMedicine(query, meds) == MedicineReply(meds[i])
  {
    var q := Lower(query);
    FirstIndexAt(meds, NameIs(q), i);
    SelectFirst(meds, NameIs(q));
  }

  /** The case of the query does not matter: it is lowered before the lookup. */
  lemma SearchMedicineIgnoresCase(query: string, meds: seq<Medicine>)
    ensures SearchMedicine(Lower(query), meds) == SearchMedicine(query, meds)
  {
    LowerIdempotent(query);
  }

  /** Every medicine with a non-empty name is found by its own name, written in any case. */
  lemma SearchMedicineFindsOwnName(query: string, meds: seq<Medicine>, i: nat)
    requires i < |meds| && meds[i].name != [] && Lower(query) == Lower(meds[i].name)
    ensures SearchMedicine(query, meds) != NotFound
  {
    SearchMedicineNotFound(query, meds);
  }

  /** What `search_by_filename` should answer: the medicine whose lowered name is
      the first, in table order, to occur in the lowered filename. A first hit
      whose name is empty is falsy in the source's `if found_medicine:` test and
      also yields the fallback. */
  function FilenameReply(filename: string, meds: seq<Medicine>): string {
    var f := Lower(filename);
    if meds == [] || f == [] then Unidentified
    else match FirstIndex(meds, NameIn(f))
      case None => Unidentified
      case Some(i) => if Lower(meds[i].name) == [] then Unidentified else IdentifiedReply(meds[i])
  }

  /** The re-lookup by equality after the scan stops at row `i` finds row `i`
      again: an earlier row with the same lowered name would have occurred in
      the filename too, and the scan would have stopped there. */
  lemma RelookupFindsScanRow(meds: seq<Medicine>, f: string, i: nat)
    requires FirstIndex(meds, NameIn(f)) == Some(i)
    ensures FirstIndex(meds, NameIs(Lower(meds[i].name))) == Some(i)
    ensures Select(meds, NameIs(Lower(meds[i].name))) != []
    ensures Select(meds, NameIs(Lower(meds[i].name)))[0] == meds[i]
  {
    var q := Lower(meds[i].name);
    SelectFirst(meds, NameIs(q));
    assert NameIs(q)(meds[i]);
  }

  /** `search_by_filename`: scan the lowered names in table order and stop at the
      first that occurs in the lowered filename; then look that name up again by
      equality and describe the first row found. */
  method SearchByFilename(filename: string, meds: seq<Medicine>) returns (reply: string)
    ensures reply == FilenameReply(filename, meds)
  {
    var f := Lower(filename);
    reply := Unidentified;
    if meds != [] && f != [] {
      var found: Option<string> := None;
      ghost var at: nat := 0;
      var i := 0;
      while i < |meds|
        invariant 0 <= i <= |meds|
        invariant NoEarlierHit(meds, f, i)
      {
        var name := Lower(meds[i].name);
        if IsSubstring(name, f) {
          found := Some(name);
          at := i;
          assert NameIn(f)(meds[i]);
          break;
        }
        i := i + 1;
      }
      if found.Some? {
        assert FirstIndex(meds, NameIn(f)) == Some(at);
        if found.value != [] {
          RelookupFindsScanRow(meds, f, at);
          var relevant := Select(meds, NameIs(found.value));
          var row := relevant[0];
          reply := IdentifiedReply(row);
        }
      }
    }
  }

  /** When row `i` holds the first lowered name that occurs in the lowered
      filename and that name is not empty, the reply names and describes row `i`. */
  lemma FilenameIdentifies(filename: string, meds: seq<Medicine>, i: nat)
    requires filename != [] && i < |meds| && meds[i].name != []
    requires IsSubstring(Lower(meds[i].name), Lower(filename))
    requires NoEarlierHit(meds, Lower(filename), i)
    ensures FilenameReply(filename, meds) == IdentifiedReply(meds[i])
  {
    var f := Lower(filename);
    forall j | 0 <= j < i
      ensures !NameIn(f)(meds[j])
    {
    }
    FirstIndexAt(meds, NameIn(f), i);
  }

  /** The fallback comes back when the filename is empty, when no lowered name
      occurs in the lowered filename (as when the table is empty), and when the
      first name that does is empty. */
  lemma FilenameFallback(filename: string, meds: seq<Medicine>)
    requires filename == []
             || NoEarlierHit(meds, Lower(filename), |meds|)
             || exists i :: 0 <= i < |meds| && meds[i].name == [] && NoEarlierHit(meds, Lower(filename), i)
    ensures FilenameReply(filename, meds) == Unidentified
  {
    var f := Lower(filename);
    if filename != [] && meds != [] {
      match FirstIndex(meds, NameIn(f))
      case None =>
      case Some(k) =>
        assert NameIn(f)(meds[k]);
        if exists i :: 0 <= i < |meds| && meds[i].name == [] && NoEarlierHit(meds, f, i) {
          var i :| 0 <= i < |meds| && meds[i].name == [] && NoEarlierHit(meds, f, i);
          SubstringTrivial([], f);
          assert NameIn(f)(meds[i]);
          assert k == i;
        }
    }
  }

  /** Those are the only ways to the fallback: otherwise some row is identified. */
  lemma FilenameFallbackOnly(filename: string, meds: seq<Medicine>)
    requires FilenameReply(filename, meds) == Unidentified
    ensures filename == []
            || NoEarlierHit(meds, Lower(filename), |meds|)
            || exists i :: 0 <= i < |meds| && meds[i].name == [] && NoEarlierHit(meds, Lower(filename), i)
  {
    var f := Lower(filename);
    if filename != [] && meds != [] {
      match FirstIndex(meds, NameIn(f))
      case None =>
        forall j | 0 <= j < |meds| ensures !IsSubstring(Lower(meds[j].name), f) {
          assert !NameIn(f)(meds[j]);
        }
      case Some(k) =>
        if meds[k].name != [] {
          RepliesDiffer(meds[k]);
        } else {
          assert NoEarlierHit(meds, f, k);
        }
    }
  }

  /** Once the scan has stopped at row `i`, the rows after it play no part:
      replacing them by any other rows leaves the reply as it was. */
  lemma FilenameIgnoresLaterRows(filename: string, meds: seq<Medicine>, i: nat, later: seq<Medicine>)
    requires FirstIndex(meds, NameIn(Lower(filename))) == Some(i)
    ensures FilenameReply(filename, meds[..i + 1] + later) == FilenameReply(filename, meds)
  {
    var keep := NameIn(Lower(filename));
    var head := meds[..i + 1];
    assert head[i] == meds[i];
    assert forall j :: 0 <= j < i ==> head[j] == meds[j];
    assert FirstIndex(head, keep) == Some(i);
    FirstIndexIgnoresLater(head, keep, later);
    assert (head + later)[i] == meds[i];
  }

  /** An identified medicine is described exactly as a search for its own name
      would describe it, under the header naming it. */
  lemma FilenameAgreesWithSearch(filename: string, meds: seq<Medicine>, i: nat)
    requires filename != []
    requires FirstIndex(meds, NameIn(Lower(filename))) == Some(i)
    requires meds[i].name != []
    ensures FilenameReply(filename, meds)
              == IdentifiedHeader + meds[i].name + "\n\n" + SearchMedicine(meds[i].name, meds)
  {
    RelookupFindsScanRow(meds, Lower(filename), i);
    SearchMedicineFound(meds[i].name, meds, i);
  }
}
