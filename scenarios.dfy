/**
 * Concrete runs of the registry, as the server code behaves: each method builds a
 * fresh session, lets users join with names that are already sanitised, and
 * states what the users see.
 */
module Scenarios {
  import opened Users
  import opened Text
  import opened Registry

  /** A pseudo that sanitising leaves as it is and that is not empty. */
  ghost predicate Clean(name: string)
  {
    name != "" && Sanitised(name)
  }

  /** A clean name typed with its newline is read back as the same name. */
  lemma TypedName(name: string)
    requires Clean(name)
    ensures FilterPseudo(name + "\n") == name
    ensures Usable(Read(name + "\n"))
  {
    FilterPseudoIsStrip(name + "\n");
    StripAppend(name, "\n", Forbidden);
    StripNoneOccur(name, Forbidden);
    StripCons('\n', "", Forbidden);
  }

  lemma StripExample()
    ensures Strip("al(ic)e*", Forbidden) == "alice"
  {
    StripCons('*', "", Forbidden);
    StripCons('e', "*", Forbidden);
    StripCons(')', "e*", Forbidden);
    StripCons('c', ")e*", Forbidden);
    StripCons('i', "c)e*", Forbidden);
    StripCons('(', "ic)e*", Forbidden);
    StripCons('l', "(ic)e*", Forbidden);
    StripCons('a', "l(ic)e*", Forbidden);
  }

  /** Sanitising the requested name "al(ic)e*" gives "alice". */
  lemma FilterPseudoExample()
    ensures FilterPseudo("al(ic)e*") == "alice"
  {
    FilterPseudoIsStrip("al(ic)e*");
    StripExample();
  }

  /** With a limit of two, the gate closes after the first user: the second is not accepted. */
  method LimitTwoAdmitsOne(alice: string, bob: string) returns (first: JoinOutcome, second: JoinOutcome)
    requires Clean(alice) && Clean(bob)
    ensures first == Joined(U(0, alice, 10))
    ensures second == SessionFilled
  {
    var session := new Session(2);
    TypedName(alice);
    first := session.Join(10, [Read(alice + "\n")]);
    second := session.Join(11, [Read(bob + "\n")]);
  }

  /** Read errors and lines that sanitise to nothing (such as "(_\n") are skipped by the pseudo loop. */
  method JoinSkipsUnusableLines(noise: string, alice: string, bob: string) returns (outcome: JoinOutcome)
    requires FilterPseudo(noise) == ""
    requires Clean(alice) && Clean(bob)
    ensures outcome == Joined(U(0, alice, 7))
  {
    var session := new Session(3);
    TypedName(alice);
    var lines := [ReadError, Read(noise), Read(alice + "\n"), Read(bob + "\n")];
    assert FirstPseudo(lines[2..]) == Some(alice);
    assert lines[1..][1..] == lines[2..];
    assert FirstPseudo(lines[1..]) == Some(alice);
    outcome := session.Join(7, lines);
  }

  /** A session with room for three users, joined by alice, bob and carol in that order. */
  method ThreeUsers(alice: string, bob: string, carol: string) returns (session: Session)
    requires Clean(alice) && Clean(bob) && Clean(carol)
    ensures fresh(session) && fresh(session.users) && session.Valid()
    ensures session.usersPtr == 3
    ensures session.users[..] == [U(0, alice, 1), U(1, bob, 2), U(2, carol, 3), Empty]
  {
    session := new Session(4);
    assert session.users[..] == [Empty, Empty, Empty, Empty];
    TypedName(alice);
    var a := session.Join(1, [Read(alice + "\n")]);
    assert session.users[..] == [U(0, alice, 1), Empty, Empty, Empty];
    TypedName(bob);
    var b := session.Join(2, [Read(bob + "\n")]);
    assert session.users[..] == [U(0, alice, 1), U(1, bob, 2), Empty, Empty];
    TypedName(carol);
    var c := session.Join(3, [Read(carol + "\n")]);
  }

  /** Three users; a line from bob goes to alice and carol, once each, as "bob: line\n". */
  method BroadcastSkipsSender(alice: string, bob: string, carol: string, line: string)
    returns (recipients: seq<nat>, text: string)
    requires Clean(alice) && Clean(bob) && Clean(carol)
    requires '\n' !in line
    ensures forall k :: k in recipients <==> k == 0 || k == 2
    ensures StrictlyIncreasing(recipients)
    ensures text == bob + ": " + line + "\n"
  {
    var session := ThreeUsers(alice, bob, carol);
    var sender := session.users[1];
    recipients := session.Broadcast(sender.id);
    text := UserMessage(sender, line + "\n");
    UserMessageOfLine(sender, line);
  }

  /**
   * Alice, bob and carol join; alice leaves. The farewell reaches bob and carol,
   * but the leave clears carol's slot as well as alice's and leaves slot 0 free,
   * so a later line from bob reaches nobody. The next user to join is given
   * carol's id while carol is still connected.
   */
  method LeaveErasesLastUser(alice: string, bob: string, carol: string, dave: string)
    returns (byeTo: seq<nat>, bobLater: seq<nat>, carolId: nat, next: JoinOutcome)
    requires Clean(alice) && Clean(bob) && Clean(carol) && Clean(dave)
    ensures forall k :: k in byeTo <==> k == 1 || k == 2
    ensures bobLater == []
    ensures next.Joined? && next.user.U? && next.user.id == carolId
  {
    var session := ThreeUsers(alice, bob, carol);
    var a, b, c := session.users[0], session.users[1], session.users[2];
    carolId := c.id;
    var bye;
    bye, byeTo := session.Exit(a);
    assert session.users[..] == [Empty, U(1, bob, 2), Empty, Empty];
    bobLater := session.Broadcast(b.id);
    assert !IsRecipient(session.users[..], b.id, 0);
    TypedName(dave);
    next := session.Join(4, [Read(dave + "\n")]);
  }
}
