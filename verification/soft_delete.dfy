/**
 * The soft-delete mixin: a record is never removed from the store; instead a
 * boolean flag and a deletion timestamp mark it as logically deleted, and the
 * mark can be taken away again.
 *
 * Timestamps are integers (instants on the server's clock). Every clock read
 * the source performs is a parameter of the operation that performs it.
 */
module SoftDelete {
  import opened Wrappers

  /** The columns of one record: the host model's own columns (`data`) and the
      three columns the mixin touches. Also the shape of a persisted row. */
  datatype Row<T> = Row(data: T, isDeleted: bool, deletedAt: Option<int>, updatedAt: int)

  /** The mixin's invariant: a record is flagged deleted exactly when it carries
      a deletion timestamp. */
  predicate Consistent<T>(r: Row<T>)
  {
    r.isDeleted <==> r.deletedAt.Some?
  }

  /** The state of a freshly created record: the column defaults. */
  function Created<T>(data: T, now: int): (r: Row<T>)
    ensures Consistent(r) && !r.isDeleted
    ensures r.data == data
  {
    Row(data, false, None, now)
  }

  /** The state `soft_delete` leaves behind, from any state `r`; `deletedNow`
      and `updatedNow` are its two separate clock readings. */
  function Deleted<T>(r: Row<T>, deletedNow: int, updatedNow: int): (r': Row<T>)
    ensures Consistent(r') && r'.isDeleted
    ensures r'.deletedAt == Some(deletedNow) && r'.updatedAt == updatedNow
    ensures r'.data == r.data
  {
    r.(isDeleted := true, deletedAt := Some(deletedNow), updatedAt := updatedNow)
  }

  /** The state `soft_undelete` leaves behind, from any state `r`. */
  function Undeleted<T>(r: Row<T>, now: int): (r': Row<T>)
    ensures Consistent(r') && !r'.isDeleted
    ensures r'.updatedAt == now
    ensures r'.data == r.data
  {
    r.(isDeleted := false, deletedAt := None, updatedAt := now)
  }

  /** One call of either operation, with the clock readings it takes. */
  datatype Event = SoftDeleteCall(deletedNow: int, updatedNow: int) | SoftUndeleteCall(now: int)
  {
    /** The reading stored in `updated_at` by this call. */
    function Touched(): int
    {
      match this
      case SoftDeleteCall(_, u) => u
      case SoftUndeleteCall(u) => u
    }
  }

  function Step<T>(r: Row<T>, e: Event): Row<T>
  {
    match e
    case SoftDeleteCall(d, u) => Deleted(r, d, u)
    case SoftUndeleteCall(u) => Undeleted(r, u)
  }

  /** The state after the calls `events`, in order, starting from `r`. */
  function Replay<T>(r: Row<T>, events: seq<Event>): Row<T>
    decreases |events|
  {
    if events == [] then r else Replay(Step(r, events[0]), events[1..])
  }

  /** The clock readings of `events` never go backwards and none is earlier than `start`. */
  predicate MonotoneFrom(start: int, events: seq<Event>)
  {
    forall i :: 0 <= i < |events| ==>
      (events[i].SoftDeleteCall? ==> events[i].deletedNow <= events[i].updatedNow) &&
      (i == 0 ==> start <= events[i].Touched()) &&
      (0 < i ==> events[i - 1].Touched() <= events[i].Touched())
  }

  /** A round trip: from any state, deleting and then undeleting leaves what
      undeleting alone leaves; for a live record that is the record as it was,
      except that `updated_at` holds the undelete's reading. */
  lemma DeleteThenUndelete<T>(r: Row<T>, t1: int, t2: int, t3: int)
    ensures Undeleted(Deleted(r, t1, t2), t3) == Undeleted(r, t3)
    ensures Consistent(r) && !r.isDeleted ==> Undeleted(Deleted(r, t1, t2), t3) == r.(updatedAt := t3)
  {
  }

  /** Undeleting twice is undeleting once with the later `updated_at` reading;
      in particular the second call leaves the two flag fields as they were. */
  lemma UndeleteIdempotent<T>(r: Row<T>, t1: int, t2: int)
    ensures Undeleted(Undeleted(r, t1), t2) == Undeleted(r, t2)
  {
  }

  /** Deleting is not idempotent: a second call replaces the deletion
      timestamp with its own reading, which differs from the first whenever
      the readings differ and is strictly later when the clock moved on. */
  lemma DeleteOverwritesTimestamp<T>(r: Row<T>, t1: int, t2: int, t3: int, t4: int)
    ensures Deleted(Deleted(r, t1, t2), t3, t4).deletedAt == Some(t3)
    ensures t1 != t3 ==> Deleted(Deleted(r, t1, t2), t3, t4).deletedAt != Deleted(r, t1, t2).deletedAt
    ensures t1 < t3 ==> Deleted(r, t1, t2).deletedAt.value < Deleted(Deleted(r, t1, t2), t3, t4).deletedAt.value
  {
  }

  /** After any non-empty series of calls, from any starting state: the record
      is consistent, it is deleted exactly when the last call was a delete
      (then carrying that call's deletion reading), and `updated_at` is the last
      call's reading. */
  lemma {:induction false} ReplayLastCallDecides<T>(r: Row<T>, events: seq<Event>)
    requires events != []
    ensures var last := events[|events| - 1];
      && Consistent(Replay(r, events))
      && Replay(r, events).isDeleted == last.SoftDeleteCall?
      && (last.SoftDeleteCall? ==> Replay(r, events).deletedAt == Some(last.deletedNow))
      && Replay(r, events).updatedAt == last.Touched()
    decreases |events|
  {
    if |events| > 1 {
      ReplayLastCallDecides(Step(r, events[0]), events[1..]);
      assert events[1..][|events[1..]| - 1] == events[|events| - 1];
    }
  }

  /** Any series of calls keeps the host's own columns and keeps a consistent
      record consistent: the two-state toggle can be cycled without limit. */
  lemma {:induction false} ReplayPreserves<T>(r: Row<T>, events: seq<Event>)
    ensures Replay(r, events).data == r.data
    ensures Consistent(r) ==> Consistent(Replay(r, events))
    decreases |events|
  {
    if events != [] {
      ReplayPreserves(Step(r, events[0]), events[1..]);
    }
  }

  /** With a clock that does not go backwards, `updated_at` never decreases and
      a deletion timestamp is never later than `updated_at`. */
  lemma {:induction false} ReplayMonotoneClock<T>(r: Row<T>, events: seq<Event>)
    requires MonotoneFrom(r.updatedAt, events)
    requires r.deletedAt.Some? ==> r.deletedAt.value <= r.updatedAt
    ensures r.updatedAt <= Replay(r, events).updatedAt
    ensures Replay(r, events).deletedAt.Some? ==>
      Replay(r, events).deletedAt.value <= Replay(r, events).updatedAt
    decreases |events|
  {
    if events != [] {
      var r' := Step(r, events[0]);
      assert MonotoneFrom(r'.updatedAt, events[1..]) by {
        forall i | 0 <= i < |events[1..]|
          ensures (events[1..][i].SoftDeleteCall? ==> events[1..][i].deletedNow <= events[1..][i].updatedNow)
          ensures (i == 0 ==> r'.updatedAt <= events[1..][i].Touched())
          ensures (0 < i ==> events[1..][i - 1].Touched() <= events[1..][i].Touched())
        {
          assert events[1..][i] == events[i + 1];
        }
      }
      ReplayMonotoneClock(r', events[1..]);
    }
  }

  /**
   * A record with the mixin, as an object whose columns the operations update
   * in place. `data` stands for the host model's own columns; `stored` is the
   * row the last `save()` wrote (None before the first save) and `saves` counts
   * the writes.
   */
  class SoftDeleteMixin<T> {
    var data: T
    var isDeleted: bool
    var deletedAt: Option<int>
    var updatedAt: int
    ghost var stored: Option<Row<T>>
    ghost var saves: nat

    /** The in-memory columns as a row. */
    function State(): Row<T>
      reads this
    {
      Row(data, isDeleted, deletedAt, updatedAt)
    }

    ghost predicate Valid()
      reads this
    {
      Consistent(State())
    }

    /** A new, not yet saved record with the column defaults. */
    constructor (data: T, now: int)
      ensures Valid() && State() == Created(data, now)
      ensures !isDeleted && deletedAt == None
      ensures stored == None && saves == 0
    {
      this.data := data;
      isDeleted := false;
      deletedAt := None;
      updatedAt := now;
      stored := None;
      saves := 0;
    }

    /** Django's `save()`: write every column of the record to the store. */
    method Save()
      modifies this`stored, this`saves
      ensures stored == Some(State()) && saves == old(saves) + 1
    {
      stored := Some(State());
      saves := saves + 1;
    }

    /** Mark the record deleted, stamp it, and save it, whatever its state. */
    method SoftDelete(deletedNow: int, updatedNow: int)
      modifies this
      ensures Valid() && State() == Deleted(old(State()), deletedNow, updatedNow)
      ensures isDeleted && deletedAt == Some(deletedNow) && updatedAt == updatedNow
      ensures data == old(data)
      ensures stored == Some(State()) && saves == old(saves) + 1
    {
      isDeleted := true;
      deletedAt := Some(deletedNow);
      updatedAt := updatedNow;
      Save();
    }

    /** Mark the record live again, clear the stamp, and save it, whatever its state. */
    method SoftUndelete(now: int)
      modifies this
      ensures Valid() && State() == Undeleted(old(State()), now)
      ensures !isDeleted && deletedAt == None && updatedAt == now
      ensures data == old(data)
      ensures stored == Some(State()) && saves == old(saves) + 1
    {
      isDeleted := false;
      deletedAt := None;
      updatedAt := now;
      Save();
    }
  }
}
