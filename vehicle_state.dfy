/**
 * The vehicle-state accumulator: eleven optional readings, a merge that only
 * overwrites readings the incoming snapshot reports, and the three-valued
 * derived queries over the four doors and the lock.
 */
module VehicleStates {
  import opened Wrappers

  /**
   * The names the code stores in a reading. The source stores strings; every
   * string it ever stores is one of these, and "UNKNOWN" is one shared name, so
   * equality of two readings is equality of these constructors.
   */
  datatype StateName =
    | Unknown
    | Open | Closed | Ajar | FailedUnlatch | Opening | Closing
    | Unlocked | Locked | InternalLocked | SelectiveUnlocked
    | Awake | Asleep
    | NotPresent | Present

  /** The eleven tracked readings, in the order the merge visits them. */
  datatype Field =
    | FrontDriverDoor | FrontPassengerDoor | RearDriverDoor | RearPassengerDoor
    | FrontTrunk | RearTrunk | ChargePort | Tonneau
    | LockState | SleepStatus | UserPresence

  const FieldOrder: seq<Field> := [
    FrontDriverDoor, FrontPassengerDoor, RearDriverDoor, RearPassengerDoor,
    FrontTrunk, RearTrunk, ChargePort, Tonneau,
    LockState, SleepStatus, UserPresence]

  const AllFields: set<Field> := set f: Field | f in FieldOrder

  /** Position of a field in FieldOrder. */
  function Rank(f: Field): (k: nat)
    ensures k < |FieldOrder| && FieldOrder[k] == f
  {
    match f
    case FrontDriverDoor => 0
    case FrontPassengerDoor => 1
    case RearDriverDoor => 2
    case RearPassengerDoor => 3
    case FrontTrunk => 4
    case RearTrunk => 5
    case ChargePort => 6
    case Tonneau => 7
    case LockState => 8
    case SleepStatus => 9
    case UserPresence => 10
  }

  /** A reading: `None` is "not reported", distinct from a reported Unknown. */
  type Reading = Option<StateName>

  /** The value of a VehicleState, one reading per field. */
  datatype Status = Status(
    frontDriverDoor: Reading, frontPassengerDoor: Reading,
    rearDriverDoor: Reading, rearPassengerDoor: Reading,
    frontTrunk: Reading, rearTrunk: Reading, chargePort: Reading, tonneau: Reading,
    lockState: Reading, sleepStatus: Reading, userPresence: Reading)
  {
    /** `getattr(state, field)`. */
    function Get(f: Field): Reading
    {
      match f
      case FrontDriverDoor => frontDriverDoor
      case FrontPassengerDoor => frontPassengerDoor
      case RearDriverDoor => rearDriverDoor
      case RearPassengerDoor => rearPassengerDoor
      case FrontTrunk => frontTrunk
      case RearTrunk => rearTrunk
      case ChargePort => chargePort
      case Tonneau => tonneau
      case LockState => lockState
      case SleepStatus => sleepStatus
      case UserPresence => userPresence
    }

    /** `setattr(state, field, v)` on a value. */
    function With(f: Field, v: Reading): (r: Status)
      ensures r.Get(f) == v
      ensures forall g :: g != f ==> r.Get(g) == Get(g)
    {
      match f
      case FrontDriverDoor => this.(frontDriverDoor := v)
      case FrontPassengerDoor => this.(frontPassengerDoor := v)
      case RearDriverDoor => this.(rearDriverDoor := v)
      case RearPassengerDoor => this.(rearPassengerDoor := v)
      case FrontTrunk => this.(frontTrunk := v)
      case RearTrunk => this.(rearTrunk := v)
      case ChargePort => this.(chargePort := v)
      case Tonneau => this.(tonneau := v)
      case LockState => this.(lockState := v)
      case SleepStatus => this.(sleepStatus := v)
      case UserPresence => this.(userPresence := v)
    }

    function Doors(): seq<Reading>
    {
      [frontDriverDoor, frontPassengerDoor, rearDriverDoor, rearPassengerDoor]
    }

    /**
     * `all_doors_closed`: None while any door is unreported, otherwise whether
     * all four doors read Closed.
     */
    function AllDoorsClosed(): (r: Option<bool>)
      ensures r.None? <==> exists d :: d in Doors() && d.None?
      ensures r == Some(true) <==> forall d :: d in Doors() ==> d == Some(Closed)
    {
      if exists d :: d in Doors() && d.None? then None
      else Some(forall d :: d in Doors() ==> d == Some(Closed))
    }

    /**
     * `any_doors_open`: None while any door is unreported, otherwise whether
     * some door reads Open.
     */
    function AnyDoorsOpen(): (r: Option<bool>)
      ensures r.None? <==> exists d :: d in Doors() && d.None?
      ensures r == Some(true) <==> r.Some? && exists d :: d in Doors() && d == Some(Open)
    {
      if exists d :: d in Doors() && d.None? then None
      else Some(exists d :: d in Doors() && d == Some(Open))
    }

    /** `is_locked`: None iff the lock is unreported, else whether it is (internally) locked. */
    function IsLocked(): (r: Option<bool>)
      ensures r.None? <==> lockState.None?
      ensures r == Some(true) <==> lockState == Some(Locked) || lockState == Some(InternalLocked)
    {
      match lockState
      case None => None
      case Some(s) => Some(s == Locked || s == InternalLocked)
    }
  }

  /** A freshly constructed VehicleState: nothing reported. */
  const Unreported: Status :=
    Status(None, None, None, None, None, None, None, None, None, None, None)

  /** One entry of the change-set: the reading before and the value after. */
  type Change = (Reading, StateName)

  /** The merged reading of one field: a reported value wins, an unreported one keeps the old. */
  function MergeReading(current: Reading, incoming: Reading): Reading
  {
    if incoming.Some? then incoming else current
  }

  /** The state `update_from_response` leaves behind. */
  function Merge(current: Status, incoming: Status): (r: Status)
    ensures forall f :: r.Get(f) == MergeReading(current.Get(f), incoming.Get(f))
  {
    Status(
      MergeReading(current.frontDriverDoor, incoming.frontDriverDoor),
      MergeReading(current.frontPassengerDoor, incoming.frontPassengerDoor),
      MergeReading(current.rearDriverDoor, incoming.rearDriverDoor),
      MergeReading(current.rearPassengerDoor, incoming.rearPassengerDoor),
      MergeReading(current.frontTrunk, incoming.frontTrunk),
      MergeReading(current.rearTrunk, incoming.rearTrunk),
      MergeReading(current.chargePort, incoming.chargePort),
      MergeReading(current.tonneau, incoming.tonneau),
      MergeReading(current.lockState, incoming.lockState),
      MergeReading(current.sleepStatus, incoming.sleepStatus),
      MergeReading(current.userPresence, incoming.userPresence))
  }

  /** A field changes when the snapshot reports it and the report differs from the current reading. */
  predicate Changes(current: Status, incoming: Status, f: Field)
  {
    incoming.Get(f).Some? && incoming.Get(f) != current.Get(f)
  }

  /** The change-set `update_from_response` returns. */
  function ChangeSet(current: Status, incoming: Status): map<Field, Change>
  {
    map f | f in AllFields && Changes(current, incoming, f) :: (current.Get(f), incoming.Get(f).value)
  }

  /**
   * The merge's laws: a reported field ends up equal to the report, an
   * unreported one is untouched, and the change-set holds exactly the fields
   * whose reading moved, each with its old reading and its new value.
   */
  lemma MergeLaws(current: Status, incoming: Status)
    ensures forall f :: incoming.Get(f).Some? ==> Merge(current, incoming).Get(f) == incoming.Get(f)
    ensures forall f :: incoming.Get(f).None? ==> Merge(current, incoming).Get(f) == current.Get(f)
    ensures forall f :: f in ChangeSet(current, incoming) <==>
      Merge(current, incoming).Get(f) != current.Get(f)
    ensures forall f :: f in ChangeSet(current, incoming) ==>
      ChangeSet(current, incoming)[f] == (current.Get(f), Merge(current, incoming).Get(f).value)
  {
    forall f ensures f in AllFields { assert FieldOrder[Rank(f)] == f; }
  }

  /** Merging a snapshot that reports nothing returns no changes and keeps the state. */
  lemma MergeUnreported(current: Status)
    ensures Merge(current, Unreported) == current
    ensures ChangeSet(current, Unreported) == map[]
  {
  }

  /** Merging the same snapshot a second time changes nothing and reports nothing. */
  lemma MergeIdempotent(current: Status, incoming: Status)
    ensures Merge(Merge(current, incoming), incoming) == Merge(current, incoming)
    ensures ChangeSet(Merge(current, incoming), incoming) == map[]
  {
    var once := Merge(current, incoming);
    assert forall f :: !Changes(once, incoming, f);
  }

  /** Once all four doors are reported they stay reported, so the door queries are decided. */
  lemma DoorsStayDecided(current: Status, incoming: Status)
    requires current.AllDoorsClosed().Some? || incoming.AllDoorsClosed().Some?
    ensures Merge(current, incoming).AllDoorsClosed().Some?
    ensures Merge(current, incoming).AnyDoorsOpen().Some?
  {
    var m := Merge(current, incoming);
    assert m.Doors() == [m.Get(FrontDriverDoor), m.Get(FrontPassengerDoor), m.Get(RearDriverDoor), m.Get(RearPassengerDoor)];
  }

  /** The two door queries agree: all doors closed means none is open. */
  lemma DoorQueriesAgree(s: Status)
    ensures s.AllDoorsClosed().None? <==> s.AnyDoorsOpen().None?
    ensures s.AllDoorsClosed() == Some(true) ==> s.AnyDoorsOpen() == Some(false)
  {
    if s.AllDoorsClosed() == Some(true) {
      forall d | d in s.Doors() ensures d != Some(Open) { }
    }
  }

  /**
   * The accumulator owned by a client: a record of eleven readings that
   * `update_from_response` mutates in place.
   */
  class VehicleState {
    var frontDriverDoor: Reading
    var frontPassengerDoor: Reading
    var rearDriverDoor: Reading
    var rearPassengerDoor: Reading
    var frontTrunk: Reading
    var rearTrunk: Reading
    var chargePort: Reading
    var tonneau: Reading
    var lockState: Reading
    var sleepStatus: Reading
    var userPresence: Reading

    /** The readings as a value. */
    function Snapshot(): Status
      reads this
    {
      Status(frontDriverDoor, frontPassengerDoor, rearDriverDoor, rearPassengerDoor,
             frontTrunk, rearTrunk, chargePort, tonneau, lockState, sleepStatus, userPresence)
    }

    /** `__init__`: every reading unreported. */
    constructor ()
      ensures Snapshot() == Unreported
    {
      frontDriverDoor, frontPassengerDoor, rearDriverDoor, rearPassengerDoor := None, None, None, None;
      frontTrunk, rearTrunk, chargePort, tonneau := None, None, None, None;
      lockState, sleepStatus, userPresence := None, None, None;
    }

    /** `setattr(self, f, v)`. */
    method Set(f: Field, v: Reading)
      modifies this
      ensures Snapshot() == old(Snapshot()).With(f, v)
    {
      match f
      case FrontDriverDoor => frontDriverDoor := v;
      case FrontPassengerDoor => frontPassengerDoor := v;
      case RearDriverDoor => rearDriverDoor := v;
      case RearPassengerDoor => rearPassengerDoor := v;
      case FrontTrunk => frontTrunk := v;
      case RearTrunk => rearTrunk := v;
      case ChargePort => chargePort := v;
      case Tonneau => tonneau := v;
      case LockState => lockState := v;
      case SleepStatus => sleepStatus := v;
      case UserPresence => userPresence := v;
    }

    /**
     * `update_from_response`: visit the eleven fields in order; a field the
     * snapshot reports and that differs from the current reading is recorded
     * as (old, new) and overwritten. The snapshot may be this very object.
     */
    method UpdateFromResponse(newState: VehicleState) returns (changes: map<Field, Change>)
      modifies this
      ensures Snapshot() == Merge(old(Snapshot()), old(newState.Snapshot()))
      ensures changes == ChangeSet(old(Snapshot()), old(newState.Snapshot()))
    {
      ghost var current := Snapshot();
      ghost var incoming := newState.Snapshot();
      changes := map[];
      var i := 0;
      while i < |FieldOrder|
        invariant 0 <= i <= |FieldOrder|
        invariant forall f :: Snapshot().Get(f) ==
                    (if Rank(f) < i then MergeReading(current.Get(f), incoming.Get(f)) else current.Get(f))
        invariant forall f :: Rank(f) >= i ==> newState.Snapshot().Get(f) == incoming.Get(f)
        invariant forall f :: f in changes <==> Rank(f) < i && Changes(current, incoming, f)
        invariant forall f :: f in changes ==> changes[f] == (current.Get(f), incoming.Get(f).value)
      {
        var field := FieldOrder[i];
        assert Rank(field) == i;
        var newValue := newState.Snapshot().Get(field);
        if newValue.Some? {
          var oldValue := Snapshot().Get(field);
          if oldValue != newValue {
            changes := changes[field := (oldValue, newValue.value)];
            Set(field, newValue);
          }
        }
        i := i + 1;
      }
      MergeByReadings(Snapshot(), current, incoming);
      ChangeSetByEntries(changes, current, incoming);
    }
  }

  lemma MergeByReadings(s: Status, current: Status, incoming: Status)
    requires forall f :: s.Get(f) == MergeReading(current.Get(f), incoming.Get(f))
    ensures s == Merge(current, incoming)
  {
    var m := Merge(current, incoming);
    assert s.Get(FrontDriverDoor) == m.Get(FrontDriverDoor);
    assert s.Get(FrontPassengerDoor) == m.Get(FrontPassengerDoor);
    assert s.Get(RearDriverDoor) == m.Get(RearDriverDoor);
    assert s.Get(RearPassengerDoor) == m.Get(RearPassengerDoor);
    assert s.Get(FrontTrunk) == m.Get(FrontTrunk);
    assert s.Get(RearTrunk) == m.Get(RearTrunk);
    assert s.Get(ChargePort) == m.Get(ChargePort);
    assert s.Get(Tonneau) == m.Get(Tonneau);
    assert s.Get(LockState) == m.Get(LockState);
    assert s.Get(SleepStatus) == m.Get(SleepStatus);
    assert s.Get(UserPresence) == m.Get(UserPresence);
  }

  lemma ChangeSetByEntries(changes: map<Field, Change>, current: Status, incoming: Status)
    requires forall f :: f in changes <==> Rank(f) < |FieldOrder| && Changes(current, incoming, f)
    requires forall f :: f in changes ==> incoming.Get(f).Some? && changes[f] == (current.Get(f), incoming.Get(f).value)
    ensures changes == ChangeSet(current, incoming)
  {
    forall f ensures f in AllFields { assert FieldOrder[Rank(f)] == f; }
  }
}
