/** A reader the journal can rely on exists: printed records are unambiguous, so reading back is a function. */
module Reader {
  import opened Common
  import opened Json
  import opened Storable
  import opened Journal
  import opened Unambiguous

  /** The record a text was printed from, when there is one. */
  ghost function ReadBack(t: string): Option<Value> {
    if exists r :: StorableRecord(r) && Print(r) == t then
      var r :| StorableRecord(r) && Print(r) == t; Some(r)
    else None
  }

  /** A reader that keeps records exists among those whose objects are ordered maps: reading back what was
      printed, and nothing else. */
  lemma ReadBackKeepsRecords()
    ensures KeepsRecords(ReadBack)
    ensures forall t :: ReadBack(t).Some? ==> StorableRecord(ReadBack(t).value)
  {
    forall t ensures ReadBack(t).Some? ==> IsJson(t) {
      if ReadBack(t).Some? { PrintedIsJson(ReadBack(t).value); }
    }
    forall r | StorableRecord(r) ensures ReadsBack(ReadBack, r) {
      var q := ReadBack(Print(r)).value;
      assert Print(q) + [] == Print(r) + [];
      PrintUnambiguous(q, r, [], []);
    }
  }
}
