/** Users, the table of slots and the scans every handler performs. */
module Users {
  import opened CText

  const MAX_USER: nat := 64     // MAX_USER_CONNECTION
  const SCANNED: nat := 128     // slots the acceptor may fill
  const TABLE_SIZE: nat := 129  // slots allocated
  const NAME_SIZE: nat := 64    // USERNAME_MAX_LENGTH

  datatype Status = Established | Joined | Suspended | Disconnected

  function StatusCode(s: Status): int {
    match s
    case Established => 1
    case Joined => 2
    case Suspended => 999
    case Disconnected => 998
  }

  /** The order in which a session goes through its statuses, which is not the order of the codes. */
  function Phase(s: Status): nat {
    match s
    case Established => 0
    case Joined => 1
    case Suspended => 2
    case Disconnected => 3
  }

  datatype User = User(name: Text, status: Status, verified: bool, receiver: bool)

  type Table = t: seq<Option<User>> | |t| == TABLE_SIZE witness seq(TABLE_SIZE, _ => None)

  /** is_user_joined_server: suspended and disconnected users still count. */
  predicate IsJoined(o: Option<User>) {
    o.Some? && StatusCode(o.value.status) >= StatusCode(Joined)
  }

  predicate NameOk(n: Text) {
    && 1 <= |n| < NAME_SIZE
    && forall i | 0 <= i < |n| :: n[i] != NUL && n[i] != ' ' && n[i] != '\"'
  }

  predicate NamesOk(t: Table) {
    forall i | 0 <= i < |t| :: t[i].Some? ==> NameOk(t[i].value.name)
  }

  // ----- Scans of the table -----

  /** The joined slots below `n`, in scan order. */
  function JoinedBelow(t: Table, n: nat): (r: seq<nat>)
    requires n <= |t|
    ensures forall i :: i in r <==> 0 <= i < n && IsJoined(t[i])
    ensures forall j, k | 0 <= j < k < |r| :: r[j] < r[k]
  {
    if n == 0 then []
    else if IsJoined(t[n - 1]) then
      var below := JoinedBelow(t, n - 1);
      assert forall j | 0 <= j < |below| :: below[j] in below;
      below + [n - 1]
    else JoinedBelow(t, n - 1)
  }

  function JoinedSlots(t: Table): seq<nat> {
    JoinedBelow(t, MAX_USER)
  }

  predicate Named(t: Table, me: nat, name: Text, i: nat)
    requires i < |t|
  {
    i != me && IsJoined(t[i]) && Fold(name) == Fold(t[i].value.name)
  }

  /** The first other joined user of that name among the slots from `i` on. */
  function FindNamed(t: Table, me: nat, name: Text, i: nat): (r: Option<nat>)
    requires i <= MAX_USER
    ensures r == None ==> forall k | i <= k < MAX_USER :: !Named(t, me, name, k)
    ensures r.Some? ==> i <= r.value < MAX_USER && Named(t, me, name, r.value)
    ensures r.Some? ==> forall k | i <= k < r.value :: !Named(t, me, name, k)
    decreases MAX_USER - i
  {
    if i == MAX_USER then None else if Named(t, me, name, i) then Some(i) else FindNamed(t, me, name, i + 1)
  }
}
