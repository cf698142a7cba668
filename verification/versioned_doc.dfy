/** One stored document with its opaque revision, as the host's storage serves it. */
module VersionedDocs {
  import opened Options

  class VersionedDoc<V> {
    var value: Option<V>
    var revision: nat

    constructor ()
      ensures value == None && revision == 0
    {
      value, revision := None, 0;
    }

    /** The revision a reader is given: none while the document is absent. */
    ghost function Revision(): Option<nat>
      reads this
    {
      if value.None? then None else Some(revision)
    }

    method GetVersioned() returns (v: Option<V>, expected: Option<nat>)
      ensures v == value && expected == Revision()
    {
      v := value;
      expected := if value.None? then None else Some(revision);
    }

    /** Applies exactly at the expected revision, and a new revision is minted when it does. */
    method CompareAndSet(expected: Option<nat>, next: V) returns (applied: bool)
      modifies this
      ensures applied == (expected == old(Revision()))
      ensures applied ==> value == Some(next) && revision == old(revision) + 1
      ensures !applied ==> value == old(value) && revision == old(revision)
    {
      var current := if value.None? then None else Some(revision);
      applied := expected == current;
      if applied {
        value, revision := Some(next), revision + 1;
      }
    }

    /** Other callers' writes, each against the revision they found. */
    method PeerWrites(writes: seq<V>)
      modifies this
      ensures value == LastOf(old(value), writes) && revision == old(revision) + |writes|
      ensures (old(Revision()) == Revision()) == (writes == [])
    {
      for i := 0 to |writes|
        invariant value == LastOf(old(value), writes[..i]) && revision == old(revision) + i
      {
        assert writes[..i + 1][..i] == writes[..i];
        value, revision := Some(writes[i]), revision + 1;
      }
      assert writes[..|writes|] == writes;
    }
  }

  function LastOf<V>(before: Option<V>, writes: seq<V>): Option<V> {
    if writes == [] then before else Some(writes[|writes| - 1])
  }
}
