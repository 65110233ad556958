/** The slot registry: the table `myGamepads` of nullable controller handles
    and the first-fit connect / first-match disconnect callbacks, stated as
    functions on the table's contents. */
module Registry {

  import opened Maybe

  /** Number of controller seats (BP32_MAX_GAMEPADS). */
  const MaxGamepads: nat := 4

  /** An opaque, non-null controller handle (a GamepadPtr). Only its identity
      is observable: two handles are the same controller iff they are equal. */
  datatype Handle = Handle(id: nat)

  /** The table's contents; a None slot holds nullptr. */
  type Slots = seq<Option<Handle>>

  /** Every slot is occupied. */
  predicate Full(s: Slots) {
    forall j :: 0 <= j < |s| ==> s[j].Some?
  }

  /** `gp` sits in slot `i`. */
  predicate Holds(s: Slots, i: nat, gp: Handle) {
    i < |s| && s[i] == Some(gp)
  }

  /** No two slots hold the same controller. */
  predicate Distinct(s: Slots) {
    forall i, j :: 0 <= i < j < |s| && s[i].Some? ==> s[i] != s[j]
  }

  /** The lowest free slot at or after `k`, if any. */
  function FirstFreeFrom(s: Slots, k: nat): (r: Option<nat>)
    requires k <= |s|
    ensures r.Some? ==> k <= r.value < |s| && s[r.value].None?
    ensures r.Some? ==> forall j :: k <= j < r.value ==> s[j].Some?
    ensures r.None? ==> forall j :: k <= j < |s| ==> s[j].Some?
    decreases |s| - k
  {
    if k == |s| then None
    else if s[k].None? then Some(k)
    else FirstFreeFrom(s, k + 1)
  }

  /** The lowest slot holding `gp` at or after `k`, if any. */
  function FirstHolderFrom(s: Slots, gp: Handle, k: nat): (r: Option<nat>)
    requires k <= |s|
    ensures r.Some? ==> k <= r.value < |s| && s[r.value] == Some(gp)
    ensures r.Some? ==> forall j :: k <= j < r.value ==> s[j] != Some(gp)
    ensures r.None? ==> forall j :: k <= j < |s| ==> s[j] != Some(gp)
    decreases |s| - k
  {
    if k == |s| then None
    else if s[k] == Some(gp) then Some(k)
    else FirstHolderFrom(s, gp, k + 1)
  }

  /** onConnectedGamepad: store `gp` in the lowest-index empty slot; when the
      table is full the connection is rejected and the table is unchanged. */
  function Connect(s: Slots, gp: Handle): (r: Slots)
    ensures |r| == |s|
    ensures Full(s) ==> r == s
    ensures forall i :: 0 <= i < |s| && s[i].None? && (forall j :: 0 <= j < i ==> s[j].Some?) ==>
              r == s[i := Some(gp)]
  {
    match FirstFreeFrom(s, 0)
    case Some(i) => s[i := Some(gp)]
    case None => s
  }

  /** onDisconnectedGamepad: null the lowest-index slot holding `gp`; when no
      slot holds it the table is unchanged. */
  function Disconnect(s: Slots, gp: Handle): (r: Slots)
    ensures |r| == |s|
    ensures (forall j :: 0 <= j < |s| ==> s[j] != Some(gp)) ==> r == s
    ensures forall i :: 0 <= i < |s| && s[i] == Some(gp) && (forall j :: 0 <= j < i ==> s[j] != Some(gp)) ==>
              r == s[i := None]
  {
    match FirstHolderFrom(s, gp, 0)
    case Some(i) => s[i := None]
    case None => s
  }

  /** Connecting a controller that is not yet tracked, while a seat is free,
      and then disconnecting it gives back the original table. */
  lemma ConnectThenDisconnect(s: Slots, gp: Handle)
    requires !Full(s)
    requires forall j :: 0 <= j < |s| ==> s[j] != Some(gp)
    ensures Holds(Connect(s, gp), FirstFreeFrom(s, 0).value, gp)
    ensures Disconnect(Connect(s, gp), gp) == s
  {
    var i := FirstFreeFrom(s, 0).value;
    var c := Connect(s, gp);
    assert c == s[i := Some(gp)];
    assert forall j :: 0 <= j < i ==> c[j] != Some(gp);
    assert Disconnect(c, gp) == c[i := None];
  }

  /** A connect that finds the table full reports it and changes nothing;
      one that finds room always tracks the controller afterwards. */
  lemma ConnectTracks(s: Slots, gp: Handle)
    ensures Full(s) <==> Connect(s, gp) == s
    ensures !Full(s) ==> exists i :: Holds(Connect(s, gp), i, gp)
  {
    if !Full(s) {
      var i := FirstFreeFrom(s, 0).value;
      assert Connect(s, gp)[i] != s[i];
      assert Holds(Connect(s, gp), i, gp);
    }
  }

  /** Connecting an untracked controller keeps the table free of duplicates. */
  lemma ConnectKeepsDistinct(s: Slots, gp: Handle)
    requires Distinct(s)
    requires forall j :: 0 <= j < |s| ==> s[j] != Some(gp)
    ensures Distinct(Connect(s, gp))
  {
    var c := Connect(s, gp);
    if !Full(s) {
      var k := FirstFreeFrom(s, 0).value;
      forall i, j | 0 <= i < j < |c| && c[i].Some?
        ensures c[i] != c[j]
      {
        if i == k {
          assert c[j] == s[j];
        } else if j == k {
          assert c[i] == s[i];
        }
      }
    }
  }

  /** Disconnecting keeps the table free of duplicates and, when it was,
      leaves `gp` in no slot at all. */
  lemma DisconnectRemoves(s: Slots, gp: Handle)
    requires Distinct(s)
    ensures Distinct(Disconnect(s, gp))
    ensures forall j :: 0 <= j < |s| ==> Disconnect(s, gp)[j] != Some(gp)
  {
    var d := Disconnect(s, gp);
    var h := FirstHolderFrom(s, gp, 0);
    if h.Some? {
      var k := h.value;
      forall j | 0 <= j < |s|
        ensures d[j] != Some(gp)
      {
        if j > k {
          assert s[k] != s[j];
        }
      }
    }
  }

  /** A notification from the controller stack. */
  datatype Event = Connected(gp: Handle) | Disconnected(gp: Handle)

  function Apply(s: Slots, e: Event): (r: Slots)
    ensures |r| == |s|
  {
    match e
    case Connected(gp) => Connect(s, gp)
    case Disconnected(gp) => Disconnect(s, gp)
  }

  /** The table after a run of notifications, in order. */
  function Run(s: Slots, events: seq<Event>): (r: Slots)
    ensures |r| == |s|
    decreases |events|
  {
    if events == [] then s else Run(Apply(s, events[0]), events[1..])
  }

  /** The stack never reports as connected a controller already tracked. */
  predicate NoDoubleConnect(s: Slots, events: seq<Event>)
    decreases |events|
  {
    events != [] ==>
      (events[0].Connected? ==> forall j :: 0 <= j < |s| ==> s[j] != Some(events[0].gp)) &&
      NoDoubleConnect(Apply(s, events[0]), events[1..])
  }

  /** Over any run of notifications in which no controller is connected
      twice, no two seats ever hold the same controller. */
  lemma {:induction false} RunKeepsDistinct(s: Slots, events: seq<Event>)
    requires Distinct(s)
    requires NoDoubleConnect(s, events)
    ensures Distinct(Run(s, events))
    decreases |events|
  {
    if events != [] {
      match events[0] {
        case Connected(gp) => ConnectKeepsDistinct(s, gp);
        case Disconnected(gp) => DisconnectRemoves(s, gp);
      }
      RunKeepsDistinct(Apply(s, events[0]), events[1..]);
    }
  }
}
