/**
 * The session registry of the chat server: a fixed-length array of user slots
 * with a fill pointer, the admission gate, join, leave, and the two broadcast
 * loops, together with the name-reading loop that precedes a join.
 */
module Registry {
  import opened Users
  import opened Text

  /*** Reading a pseudo ***/

  /** One attempt to read a line from a connection: the line read (with its newline) or a read error. */
  datatype Line = Read(text: string) | ReadError

  /** A line the name loop accepts: it was read, and something is left of it after sanitising. */
  predicate Usable(line: Line)
  {
    line.Read? && FilterPseudo(line.text) != ""
  }

  /** Line `i` is the first usable one. */
  ghost predicate FirstUsable(lines: seq<Line>, i: int)
  {
    0 <= i < |lines| && Usable(lines[i]) && forall j :: 0 <= j < i ==> !Usable(lines[j])
  }

  /** Specification of the pseudo loop: the sanitised text of the first usable line, if any. */
  function FirstPseudo(lines: seq<Line>): (r: Option<string>)
    decreases |lines|
  {
    if lines == [] then None
    else if Usable(lines[0]) then Some(FilterPseudo(lines[0].text))
    else FirstPseudo(lines[1..])
  }

  /** The loop finds no pseudo exactly when no line is usable. */
  lemma {:induction false} FirstPseudoNone(lines: seq<Line>)
    ensures FirstPseudo(lines).None? <==> forall i :: 0 <= i < |lines| ==> !Usable(lines[i])
    decreases |lines|
  {
    if lines != [] && !Usable(lines[0]) {
      FirstPseudoNone(lines[1..]);
      assert forall i :: 1 <= i < |lines| ==> lines[i] == lines[1..][i - 1];
    }
  }

  /** When the loop finds a pseudo, it is the sanitised text of the first usable line. */
  lemma {:induction false} FirstPseudoFirst(lines: seq<Line>)
    ensures FirstPseudo(lines).Some? ==>
      exists i :: FirstUsable(lines, i) && FirstPseudo(lines).value == FilterPseudo(lines[i].text)
    decreases |lines|
  {
    if lines != [] {
      if Usable(lines[0]) {
        assert FirstUsable(lines, 0);
      } else if FirstPseudo(lines).Some? {
        FirstPseudoFirst(lines[1..]);
        var i :| FirstUsable(lines[1..], i) && FirstPseudo(lines).value == FilterPseudo(lines[1..][i].text);
        assert FirstUsable(lines, i + 1);
      }
    }
  }

  /** A pseudo the loop finds is non-empty and contains no forbidden character. */
  lemma {:induction false} FirstPseudoSanitised(lines: seq<Line>)
    ensures FirstPseudo(lines).Some? ==> FirstPseudo(lines).value != "" && Sanitised(FirstPseudo(lines).value)
    decreases |lines|
  {
    if lines != [] {
      if Usable(lines[0]) {
        SanitisedIsFixedPoint(lines[0].text);
      } else {
        FirstPseudoSanitised(lines[1..]);
      }
    }
  }

  /**
   * The pseudo loop of `createUser`: read errors and lines that sanitise to nothing
   * are skipped; the first line that leaves a non-empty pseudo ends the loop. `None`
   * means the lines ran out first, so the server is still waiting for a pseudo.
   */
  method ReadPseudo(lines: seq<Line>) returns (pseudo: Option<string>)
    ensures pseudo == FirstPseudo(lines)
    ensures pseudo.Some? ==> pseudo.value != "" && Sanitised(pseudo.value)
  {
    FirstPseudoSanitised(lines);
    var i := 0;
    while i < |lines|
      invariant 0 <= i <= |lines|
      invariant FirstPseudo(lines[i..]) == FirstPseudo(lines)
    {
      if lines[i].Read? {
        var candidate := FilterPseudo(lines[i].text);
        if candidate != "" {
          return Some(candidate);
        }
      }
      assert lines[i..][1..] == lines[i + 1..];
      i := i + 1;
    }
    return None;
  }

  /*** The slot array as a value ***/

  /** Every slot from `ptr` on is free. */
  ghost predicate TailEmpty(s: seq<User>, ptr: nat)
  {
    forall k :: ptr <= k < |s| ==> s[k] == Empty
  }

  /** Every occupied slot holds the user whose id is that slot, with a non-empty sanitised pseudo. */
  ghost predicate SlotsWellFormed(s: seq<User>)
  {
    forall k :: 0 <= k < |s| && s[k].U? ==>
      s[k].id == k && s[k].pseudo != "" && Sanitised(s[k].pseudo)
  }

  /** The number of occupied slots. */
  function Occupied(s: seq<User>): (n: nat)
    ensures n <= |s|
  {
    if s == [] then 0 else Occupied(s[..|s| - 1]) + (if s[|s| - 1].U? then 1 else 0)
  }

  lemma {:induction false} OccupiedUpdate(s: seq<User>, k: nat, v: User)
    requires k < |s|
    ensures Occupied(s[k := v]) == Occupied(s) - (if s[k].U? then 1 else 0) + (if v.U? then 1 else 0)
    decreases |s|
  {
    if k < |s| - 1 {
      assert s[k := v][..|s| - 1] == s[..|s| - 1][k := v];
      OccupiedUpdate(s[..|s| - 1], k, v);
    } else {
      assert s[k := v][..|s| - 1] == s[..|s| - 1];
    }
  }

  /** Only slots below the fill pointer can be occupied. */
  lemma {:induction false} OccupiedBelowPtr(s: seq<User>, ptr: nat)
    requires ptr <= |s| && TailEmpty(s, ptr)
    ensures Occupied(s) <= ptr
    decreases |s|
  {
    if |s| > ptr {
      OccupiedBelowPtr(s[..|s| - 1], ptr);
    }
  }

  /** The slot write of a join (`users[usersPtr] = newUser`). */
  function AdmitSlots(s: seq<User>, ptr: nat, joiner: User): (r: seq<User>)
    requires ptr < |s|
    ensures TailEmpty(s, ptr) ==> TailEmpty(r, ptr + 1)
    ensures TailEmpty(s, ptr) && joiner.U? ==> Occupied(r) == Occupied(s) + 1
  {
    OccupiedUpdate(s, ptr, joiner);
    s[ptr := joiner]
  }

  /**
   * The slot shuffle of a leave: slot `id` receives the slot at the fill pointer, then
   * the slot just below the fill pointer is cleared. The slot at the fill pointer is
   * free, so the leaving user's slot becomes free; when the leaving user is not the
   * last one, the last user's slot is cleared as well and that user drops out of
   * the array while still connected.
   */
  function LeaveSlots(s: seq<User>, ptr: nat, id: nat): (r: seq<User>)
    requires 1 <= ptr < |s| && id < |s|
    ensures |r| == |s|
    ensures TailEmpty(s, ptr) ==> TailEmpty(r, ptr - 1) && r[id] == Empty
    ensures forall k :: 0 <= k < |s| && k != id && k != ptr - 1 ==> r[k] == s[k]
    ensures TailEmpty(s, ptr) ==>
      Occupied(r) == Occupied(s) - (if s[id].U? then 1 else 0) - (if id != ptr - 1 && s[ptr - 1].U? then 1 else 0)
  {
    var moved := s[id := s[ptr]];
    OccupiedUpdate(s, id, s[ptr]);
    OccupiedUpdate(moved, ptr - 1, Empty);
    moved[ptr - 1 := Empty]
  }

  /*** Recipients of a broadcast ***/

  /** `r` lists, in order, the slots before the first free slot: what `broadcastMessageToAll` writes to. */
  ghost predicate ReachesAllBeforeGap(s: seq<User>, r: seq<nat>)
  {
    && |r| <= |s|
    && (forall i :: 0 <= i < |r| ==> r[i] == i && s[i].U?)
    && (|r| < |s| ==> s[|r|] == Empty)
  }

  /** No slot below `k` other than `skip` is free. */
  ghost predicate NoGapBefore(s: seq<User>, skip: int, k: int)
  {
    forall j :: 0 <= j < k && j < |s| && j != skip ==> s[j].U?
  }

  /** Slot `k` is written to by `broadcastMessage` from the sender whose id is `skip`. */
  ghost predicate IsRecipient(s: seq<User>, skip: int, k: int)
  {
    0 <= k < |s| && k != skip && s[k].U? && NoGapBefore(s, skip, k)
  }

  ghost predicate StrictlyIncreasing(r: seq<nat>)
  {
    forall i, j :: 0 <= i < j < |r| ==> r[i] < r[j]
  }

  /*** The session ***/

  /** What a join attempt came to. */
  datatype JoinOutcome =
    | SessionFilled     // the gate was closed: the server does not accept the connection
    | NoPseudo          // the lines ran out before a usable pseudo was read
    | Joined(user: User)

  class Session {
    var users: array<User>
    var usersPtr: nat
    var maxUsersAllowed: nat

    /**
     * The fill pointer is at most the last slot's index (the gate stops it at
     * `maxUsersAllowed - 1`), every slot from it on is free, so the last slot
     * itself always is, and every occupied slot holds the user with that id.
     */
    ghost predicate Valid()
      reads this, users
    {
      && users.Length == maxUsersAllowed
      && (usersPtr == 0 || usersPtr < users.Length)
      && TailEmpty(users[..], usersPtr)
      && SlotsWellFormed(users[..])
    }

    /** `buildSession`: `maxUsersAllowed` free slots and the fill pointer at 0. */
    constructor (maxUsersAllowed: nat)
      ensures Valid() && fresh(users)
      ensures this.maxUsersAllowed == maxUsersAllowed && users.Length == maxUsersAllowed
      ensures usersPtr == 0
      ensures forall k :: 0 <= k < users.Length ==> users[k] == Empty
    {
      users := new User[maxUsersAllowed](_ => Empty);
      usersPtr := 0;
      this.maxUsersAllowed := maxUsersAllowed;
    }

    /**
     * `checkSessionFilled`. When it is false there is a free slot at the fill pointer
     * and at least one more slot above it, so the pointer can move up by one and
     * still be at most the last slot's index.
     */
    function IsFilled(): (filled: bool)
      reads this, users
      ensures Valid() && !filled ==> usersPtr + 1 < users.Length && users[usersPtr] == Empty
      ensures Valid() && users.Length > 0 && filled ==> usersPtr == users.Length - 1
    {
      usersPtr as int >= maxUsersAllowed as int - 1
    }

    /**
     * The admission gate of `launchProcess` followed by the registry part of
     * `createUser`: id assignment, the pseudo loop, the slot write and the increment.
     */
    method Join(conn: nat, lines: seq<Line>) returns (outcome: JoinOutcome)
      requires Valid()
      modifies this, users
      ensures Valid() && users == old(users) && maxUsersAllowed == old(maxUsersAllowed)
      ensures outcome.SessionFilled? <==> old(IsFilled())
      ensures outcome.NoPseudo? <==> !old(IsFilled()) && FirstPseudo(lines).None?
      ensures !outcome.Joined? ==> usersPtr == old(usersPtr) && users[..] == old(users[..])
      ensures outcome.Joined? ==>
        && outcome.user.U?
        && outcome.user.id == old(usersPtr)
        && outcome.user.conn == conn
        && Some(outcome.user.pseudo) == FirstPseudo(lines)
        && outcome.user.pseudo != ""
        && Sanitised(outcome.user.pseudo)
        && usersPtr == old(usersPtr) + 1
        && users[..] == AdmitSlots(old(users[..]), old(usersPtr), outcome.user)
    {
      if IsFilled() {
        return SessionFilled;
      }
      var pseudo := ReadPseudo(lines);
      if pseudo.None? {
        return NoPseudo;
      }
      var newUser := U(usersPtr, pseudo.value, conn);
      users[usersPtr] := newUser;
      usersPtr := usersPtr + 1;
      return Joined(newUser);
    }

    /** The registry part of `processUserExit`, as written. */
    method Leave(departing: User)
      requires Valid()
      requires departing.U? && departing.id < users.Length
      requires usersPtr >= 1
      modifies users, this`usersPtr
      ensures Valid()
      ensures usersPtr == old(usersPtr) - 1
      ensures users[..] == LeaveSlots(old(users[..]), old(usersPtr), departing.id)
    {
      users[departing.id] := users[usersPtr];
      users[usersPtr - 1] := Empty;
      usersPtr := usersPtr - 1;
    }

    /** `broadcastMessageToAll`: the slots written to, in order, up to the first free slot. */
    method BroadcastToAll() returns (recipients: seq<nat>)
      ensures ReachesAllBeforeGap(users[..], recipients)
    {
      recipients := [];
      var userId := 0;
      while userId < users.Length
        invariant userId <= users.Length
        invariant |recipients| == userId
        invariant forall i :: 0 <= i < userId ==> recipients[i] == i && users[i].U?
      {
        if users[userId] == Empty {
          break;
        }
        recipients := recipients + [userId];
        userId := userId + 1;
      }
    }

    /**
     * `broadcastMessage`: the slots written to, in order. The slot whose index is the
     * sender's id is skipped without being looked at; the loop stops at the first
     * other slot that is free.
     */
    method Broadcast(senderId: nat) returns (recipients: seq<nat>)
      ensures StrictlyIncreasing(recipients)
      ensures forall k :: k in recipients <==> IsRecipient(users[..], senderId, k)
      ensures senderId !in recipients
      ensures recipients == [] <==> forall k :: !IsRecipient(users[..], senderId, k)
    {
      recipients := [];
      var userId := 0;
      while userId < users.Length
        invariant userId <= users.Length
        invariant NoGapBefore(users[..], senderId, userId)
        invariant StrictlyIncreasing(recipients)
        invariant forall i :: 0 <= i < |recipients| ==> recipients[i] < userId
        invariant forall k :: k in recipients <==> k < userId && IsRecipient(users[..], senderId, k)
      {
        if userId != senderId {
          if users[userId] == Empty {
            break;
          }
          recipients := recipients + [userId];
        }
        userId := userId + 1;
      }
      if recipients != [] {
        assert recipients[0] in recipients;
      }
    }

    /**
     * `createUser` from the join on: after a successful join, the welcome
     * announcement goes to every slot before the first free one.
     */
    method Connect(conn: nat, lines: seq<Line>) returns (outcome: JoinOutcome, welcome: string, recipients: seq<nat>)
      requires Valid()
      modifies this, users
      ensures Valid() && users == old(users)
      ensures outcome.SessionFilled? <==> old(IsFilled())
      ensures outcome.NoPseudo? <==> !old(IsFilled()) && FirstPseudo(lines).None?
      ensures !outcome.Joined? ==> usersPtr == old(usersPtr) && users[..] == old(users[..]) && recipients == []
      ensures outcome.Joined? ==>
        && outcome.user.U?
        && outcome.user.id == old(usersPtr)
        && outcome.user.conn == conn
        && Some(outcome.user.pseudo) == FirstPseudo(lines)
        && outcome.user.pseudo != ""
        && Sanitised(outcome.user.pseudo)
        && usersPtr == old(usersPtr) + 1
        && users[..] == AdmitSlots(old(users[..]), old(usersPtr), outcome.user)
        && welcome == WelcomeMessage(outcome.user.pseudo)
        && ReachesAllBeforeGap(users[..], recipients)
    {
      outcome := Join(conn, lines);
      welcome, recipients := "", [];
      if outcome.Joined? {
        SanitisedIsFixedPoint(outcome.user.pseudo);
        welcome := WelcomeMessage(FilterPseudo(outcome.user.pseudo));
        recipients := BroadcastToAll();
      }
    }

    /** `processUserExit`: the farewell goes out before the registry changes. */
    method Exit(departing: User) returns (bye: string, recipients: seq<nat>)
      requires Valid()
      requires departing.U? && departing.id < users.Length
      requires usersPtr >= 1
      modifies users, this`usersPtr
      ensures Valid()
      ensures bye == ByeMessage(departing.pseudo)
      ensures StrictlyIncreasing(recipients)
      ensures forall k :: k in recipients <==> IsRecipient(old(users[..]), departing.id, k)
      ensures usersPtr == old(usersPtr) - 1
      ensures users[..] == LeaveSlots(old(users[..]), old(usersPtr), departing.id)
    {
      bye := ByeMessage(departing.pseudo);
      recipients := Broadcast(departing.id);
      Leave(departing);
    }

    /** No more users are ever registered at once than one less than the configured limit. */
    lemma CapacityRespected()
      requires Valid()
      ensures Occupied(users[..]) <= usersPtr
      ensures maxUsersAllowed > 0 ==> Occupied(users[..]) <= maxUsersAllowed - 1
    {
      OccupiedBelowPtr(users[..], usersPtr);
    }
  }
}
