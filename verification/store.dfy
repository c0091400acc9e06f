/** The snapshot store of afi_tracker/database/models.py and of the older models.py: an
    append-only table of clan ratings, each with its member rows, read back as "the latest"
    or "the latest at or before a time".

    Timestamps are whole seconds on one time base; the clock is a parameter counted in
    microseconds. The database fixes neither which of several rows with the same timestamp
    a lookup returns nor the order of a snapshot's member rows, so the lookups promise
    "some row with the greatest admissible timestamp, with its members in some order". */
module Store {
  import opened Outcomes
  import opened Delta
  import opened Calendar

  /** One `clan_ratings` row with its `member_ratings` rows. */
  datatype Snapshot = Snapshot(timestamp: int, total: int, members: seq<Member>)

  datatype InsertError = DuplicateMember  // `uix_member_per_rating` violated; nothing is kept

  /** `now.replace(microsecond=0)`, on a clock counted in microseconds. */
  function WholeSeconds(micros: int): (s: int)
    ensures s * MicrosPerSecond <= micros < (s + 1) * MicrosPerSecond
  {
    micros / MicrosPerSecond
  }

  /** The same rows, possibly in another order. */
  predicate SameRows(a: seq<Member>, b: seq<Member>) {
    multiset(a) == multiset(b)
  }

  /** The snapshot a lookup may return in place of `h[i]`. */
  predicate Stands(r: Snapshot, s: Snapshot) {
    r.timestamp == s.timestamp && r.total == s.total && SameRows(r.members, s.members)
  }

  /** Passes the `timestamp <= bound` filter; no bound, no filter. */
  predicate Admissible(s: Snapshot, bound: Option<int>) {
    bound.None? || s.timestamp <= bound.value
  }

  /** `ORDER BY timestamp DESC LIMIT 1`, after the filter when there is a bound: nothing
      when no row passes the filter, and otherwise a row that passes it with no passing
      row later than it. */
  function Newest(h: seq<Snapshot>, bound: Option<int>): (r: Option<Snapshot>)
    ensures r.None? <==> forall i :: 0 <= i < |h| ==> !Admissible(h[i], bound)
    ensures r.Some? ==> Admissible(r.value, bound)
    ensures r.Some? ==> exists i :: 0 <= i < |h| && Stands(r.value, h[i])
    ensures r.Some? ==> forall i :: 0 <= i < |h| && Admissible(h[i], bound) ==> h[i].timestamp <= r.value.timestamp
  {
    if h == [] then None
    else
      var s := h[|h| - 1];
      var rest := Newest(h[..|h| - 1], bound);
      assert forall i :: 0 <= i < |h| - 1 ==> h[..|h| - 1][i] == h[i];
      if !Admissible(s, bound) then rest
      else if rest.None? || rest.value.timestamp <= s.timestamp then
        assert Stands(s, h[|h| - 1]);
        Some(s)
      else rest
  }

  class RatingStore {
    /** The stored snapshots in insertion order. */
    var history: seq<Snapshot>

    /** The unique constraint: no snapshot holds a member name twice. */
    ghost predicate Valid()
      reads this
    {
      forall i :: 0 <= i < |history| ==> DistinctNames(history[i].members)
    }

    constructor ()
      ensures history == [] && Valid()
    {
      history := [];
    }

    /** `insert_rating`: one snapshot stamped with the clock in whole seconds. A list that
        names a member twice violates the unique constraint; the transaction is rolled back
        and the store keeps what it had. */
    method Insert(nowMicros: int, total: int, members: seq<Member>) returns (r: Result<Snapshot, InsertError>)
      requires Valid()
      modifies this
      ensures Valid()
      ensures DistinctNames(members) ==>
        r == Success(Snapshot(WholeSeconds(nowMicros), total, members)) && history == old(history) + [r.value]
      ensures !DistinctNames(members) ==> r == Failure(DuplicateMember) && history == old(history)
    {
      if !DistinctNames(members) {
        return Failure(DuplicateMember);
      }
      var snapshot := Snapshot(WholeSeconds(nowMicros), total, members);
      history := history + [snapshot];
      r := Success(snapshot);
    }

    /** `get_last_rating`: a snapshot with the greatest timestamp, or nothing (the
        `(None, None, None)` triple) when the store is empty. */
    function Last(): (r: Option<Snapshot>)
      reads this
      ensures r.None? <==> history == []
      ensures r.Some? ==> exists i :: 0 <= i < |history| && Stands(r.value, history[i])
      ensures r.Some? ==> forall i :: 0 <= i < |history| ==> history[i].timestamp <= r.value.timestamp
    {
      Newest(history, None)
    }

    /** `get_rating_at_time(t)`: a snapshot with the greatest timestamp not after `t`, or
        nothing when every stored timestamp is after `t`. */
    function AtOrBefore(t: int): (r: Option<Snapshot>)
      reads this
      ensures r.None? <==> forall i :: 0 <= i < |history| ==> history[i].timestamp > t
      ensures r.Some? ==> r.value.timestamp <= t && exists i :: 0 <= i < |history| && Stands(r.value, history[i])
      ensures r.Some? ==> forall i :: 0 <= i < |history| ==> !(r.value.timestamp < history[i].timestamp <= t)
    {
      Newest(history, Some(t))
    }
  }

  // ---------------------------------------------------------------------------
  // Lookups after an insert, and lookups against each other

  /** After appending a snapshot stamped later than every stored one, the latest snapshot
      is the one appended: its timestamp, its total and its member rows in some order. */
  lemma LaterInsertIsLast(h: seq<Snapshot>, s: Snapshot)
    requires forall i :: 0 <= i < |h| ==> h[i].timestamp < s.timestamp
    ensures Newest(h + [s], None).Some? && Stands(Newest(h + [s], None).value, s)
  {
    var r := Newest(h + [s], None);
    assert (h + [s])[|h|] == s;
    var i :| 0 <= i < |h + [s]| && Stands(r.value, (h + [s])[i]);
    if i < |h| {
      assert (h + [s])[i] == h[i];
    }
  }

  /** After appending a snapshot stamped no earlier than every stored one (the clock did
      not go back), the latest snapshot carries the appended snapshot's timestamp. */
  lemma LastAfterInsertHasItsStamp(h: seq<Snapshot>, s: Snapshot)
    requires forall i :: 0 <= i < |h| ==> h[i].timestamp <= s.timestamp
    ensures Newest(h + [s], None).Some?
    ensures Newest(h + [s], None).value.timestamp == s.timestamp
  {
    var r := Newest(h + [s], None);
    assert (h + [s])[|h|] == s;
  }

  /** The filter is `<=`: a snapshot stamped exactly `t` is found by a lookup at `t`. */
  lemma ExactStampIsFound(h: seq<Snapshot>, t: int)
    requires exists i :: 0 <= i < |h| && h[i].timestamp == t
    ensures Newest(h, Some(t)).Some? && Newest(h, Some(t)).value.timestamp == t
  {
    var i :| 0 <= i < |h| && h[i].timestamp == t;
    assert Admissible(h[i], Some(t));
  }

  /** A later bound never finds an earlier snapshot. */
  lemma AtOrBeforeIsMonotone(h: seq<Snapshot>, t1: int, t2: int)
    requires t1 <= t2 && Newest(h, Some(t1)).Some?
    ensures Newest(h, Some(t2)).Some?
    ensures Newest(h, Some(t1)).value.timestamp <= Newest(h, Some(t2)).value.timestamp
  {
    var i :| 0 <= i < |h| && Stands(Newest(h, Some(t1)).value, h[i]);
    assert Admissible(h[i], Some(t2));
  }

  /** With a bound no earlier than every stored timestamp the lookup finds the same
      timestamp as the latest snapshot. */
  lemma LateBoundFindsLast(h: seq<Snapshot>, t: int)
    requires forall i :: 0 <= i < |h| ==> h[i].timestamp <= t
    ensures Newest(h, Some(t)).None? <==> Newest(h, None).None?
    ensures Newest(h, Some(t)).Some? ==> Newest(h, Some(t)).value.timestamp == Newest(h, None).value.timestamp
  {
    if Newest(h, None).Some? {
      var i :| 0 <= i < |h| && Stands(Newest(h, None).value, h[i]);
      var j :| 0 <= j < |h| && Stands(Newest(h, Some(t)).value, h[j]);
      assert Admissible(h[i], Some(t));
    }
  }

  /** The unique constraint at work: the member rows of every stored snapshot build a
      dictionary that lists each member once, in row order, with that member's rating, so
      the delta sees every stored row. */
  lemma StoredRowsMakeWholeDicts(store: RatingStore)
    requires store.Valid()
    ensures forall i :: 0 <= i < |store.history| ==>
              DictOf(store.history[i].members).keys == NamesOf(store.history[i].members)
    ensures forall i, j :: 0 <= i < |store.history| && 0 <= j < |store.history[i].members| ==>
              DictOf(store.history[i].members).value[store.history[i].members[j].name]
                == store.history[i].members[j].rating
  {
    forall i | 0 <= i < |store.history| {
      DictOfDistinct(store.history[i].members);
    }
  }

  /** Inserting into a store and reading it back: the inserted timestamp, total and member
      rows (in some order) come back when the clock moved on since the last insert; after
      a rejected insert the store is unchanged and the read sees it as it was. */
  method InsertThenReadBack(store: RatingStore, nowMicros: int, total: int, members: seq<Member>)
    returns (r: Result<Snapshot, InsertError>, back: Option<Snapshot>)
    requires store.Valid()
    requires forall i :: 0 <= i < |store.history| ==> store.history[i].timestamp < WholeSeconds(nowMicros)
    modifies store
    ensures store.Valid()
    ensures DistinctNames(members) ==>
      back.Some? && Stands(back.value, Snapshot(WholeSeconds(nowMicros), total, members))
    ensures !DistinctNames(members) ==> store.history == old(store.history) && back == store.Last()
  {
    r := store.Insert(nowMicros, total, members);
    if r.Success? {
      LaterInsertIsLast(old(store.history), r.value);
    }
    back := store.Last();
  }
}
