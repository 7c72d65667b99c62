/**
 * The pure text handling of the chat server: deleting substrings, sanitising a
 * requested pseudo, and the four message templates.
 */
module Text {
  import opened Users

  /*** Deleting substrings ***/

  /**
   * Go's `strings.Replace(message, pattern, "", -1)`: scans left to right and deletes every
   * non-overlapping occurrence of `pattern` (Go's `by`). An empty `pattern` matches between characters and
   * so deletes nothing.
   */
  function FilterMessage(message: string, pattern: string): (r: string)
    ensures |r| <= |message|
    ensures pattern == [] ==> r == message
    decreases |message|
  {
    if pattern == [] || |message| < |pattern| then message
    else if pattern <= message then FilterMessage(message[|pattern|..], pattern)
    else [message[0]] + FilterMessage(message[1..], pattern)
  }

  /** Reference definition: the characters of `s` that are not in `drop`, in their original order. */
  function Strip(s: string, drop: set<char>): (r: string)
    ensures |r| <= |s|
    ensures forall i :: 0 <= i < |r| ==> r[i] !in drop
    decreases |s|
  {
    if s == [] then []
    else (if s[0] in drop then [] else [s[0]]) + Strip(s[1..], drop)
  }

  /** One step of Strip on a string given as head and tail. */
  lemma StripCons(c: char, s: string, drop: set<char>)
    ensures Strip([c] + s, drop) == (if c in drop then [] else [c]) + Strip(s, drop)
  {
    assert ([c] + s)[1..] == s;
  }

  /** A character is in the stripped string exactly when it is in the original and not dropped. */
  lemma {:induction false} StripMembers(s: string, drop: set<char>, c: char)
    ensures c in Strip(s, drop) <==> c in s && c !in drop
    decreases |s|
  {
    if s != [] {
      StripMembers(s[1..], drop, c);
      assert s == [s[0]] + s[1..];
    }
  }

  /** Stripping characters that do not occur changes nothing. */
  lemma {:induction false} StripNoneOccur(s: string, drop: set<char>)
    requires forall i :: 0 <= i < |s| ==> s[i] !in drop
    ensures Strip(s, drop) == s
    decreases |s|
  {
    if s != [] {
      StripNoneOccur(s[1..], drop);
    }
  }

  lemma {:induction false} StripAppend(x: string, y: string, drop: set<char>)
    ensures Strip(x + y, drop) == Strip(x, drop) + Strip(y, drop)
    decreases |x|
  {
    if x == [] {
      assert x + y == y;
    } else {
      assert (x + y)[1..] == x[1..] + y;
      StripAppend(x[1..], y, drop);
    }
  }

  /** Stripping twice is stripping once by the union of both sets. */
  lemma {:induction false} StripTwice(s: string, a: set<char>, b: set<char>)
    ensures Strip(Strip(s, a), b) == Strip(s, a + b)
    decreases |s|
  {
    if s != [] {
      var head := if s[0] in a then [] else [s[0]];
      StripTwice(s[1..], a, b);
      StripAppend(head, Strip(s[1..], a), b);
      if s[0] !in a {
        assert Strip(head, b) == (if s[0] in b then [] else [s[0]]) + Strip([], b);
      }
    }
  }

  /** Deleting a one-character substring is stripping that character. */
  lemma {:induction false} FilterMessageOneChar(s: string, c: char)
    ensures FilterMessage(s, [c]) == Strip(s, {c})
    decreases |s|
  {
    if s != [] {
      assert s[..1] == [s[0]];
      FilterMessageOneChar(s[1..], c);
    }
  }

  /** Go's replacement is one pass: what is left can contain the pattern again. */
  lemma FilterMessageIsSinglePass()
    ensures FilterMessage("aabb", "ab") == "ab"
  {
    assert "aabb"[..2][1] != "ab"[1];
    assert "aabb"[1..][..2] == "ab";
    assert "aabb"[1..][2..] == "b";
    assert FilterMessage("b", "ab") == "b";
  }

  /*** Sanitising a pseudo ***/

  /** The characters the server removes from a requested pseudo. */
  const Forbidden: set<char> := {'\n', ' ', '(', ')', '*', '&', '#', '\'', '=', '_'}

  /** The server's `filterPseudo`: ten full deletion passes, one per forbidden character, in this order. */
  function FilterPseudo(pseudo: string): (r: string)
    ensures |r| <= |pseudo|
  {
    var p := FilterMessage(pseudo, "\n");
    var p := FilterMessage(p, " ");
    var p := FilterMessage(p, "(");
    var p := FilterMessage(p, ")");
    var p := FilterMessage(p, "*");
    var p := FilterMessage(p, "&");
    var p := FilterMessage(p, "#");
    var p := FilterMessage(p, "'");
    var p := FilterMessage(p, "=");
    FilterMessage(p, "_")
  }

  /** One more deletion pass after stripping `done` strips `done` and the passed character. */
  lemma FilterAfterStrip(s: string, done: set<char>, c: char)
    ensures FilterMessage(Strip(s, done), [c]) == Strip(s, done + {c})
  {
    FilterMessageOneChar(Strip(s, done), c);
    StripTwice(s, done, {c});
  }

  lemma {:induction false} StripNothing(s: string)
    ensures Strip(s, {}) == s
    decreases |s|
  {
    if s != [] {
      StripNothing(s[1..]);
    }
  }

  /**
   * A sanitised pseudo is the requested one with exactly the ten forbidden
   * characters removed and every other character kept, in order.
   */
  lemma {:induction false} FilterPseudoIsStrip(pseudo: string)
    ensures FilterPseudo(pseudo) == Strip(pseudo, Forbidden)
  {
    StripNothing(pseudo);
    var p := pseudo;
    assert FilterMessage(p, "\n") == Strip(pseudo, {'\n'}) by {
      FilterAfterStrip(pseudo, {}, '\n');
      assert {} + {'\n'} == {'\n'};
    }
    p := FilterMessage(p, "\n");
    assert FilterMessage(p, " ") == Strip(pseudo, {'\n', ' '}) by {
      FilterAfterStrip(pseudo, {'\n'}, ' ');
      assert {'\n'} + {' '} == {'\n', ' '};
    }
    p := FilterMessage(p, " ");
    assert FilterMessage(p, "(") == Strip(pseudo, {'\n', ' ', '('}) by {
      FilterAfterStrip(pseudo, {'\n', ' '}, '(');
      assert {'\n', ' '} + {'('} == {'\n', ' ', '('};
    }
    p := FilterMessage(p, "(");
    assert FilterMessage(p, ")") == Strip(pseudo, {'\n', ' ', '(', ')'}) by {
      FilterAfterStrip(pseudo, {'\n', ' ', '('}, ')');
      assert {'\n', ' ', '('} + {')'} == {'\n', ' ', '(', ')'};
    }
    p := FilterMessage(p, ")");
    assert FilterMessage(p, "*") == Strip(pseudo, {'\n', ' ', '(', ')', '*'}) by {
      FilterAfterStrip(pseudo, {'\n', ' ', '(', ')'}, '*');
      assert {'\n', ' ', '(', ')'} + {'*'} == {'\n', ' ', '(', ')', '*'};
    }
    p := FilterMessage(p, "*");
    assert FilterMessage(p, "&") == Strip(pseudo, {'\n', ' ', '(', ')', '*', '&'}) by {
      FilterAfterStrip(pseudo, {'\n', ' ', '(', ')', '*'}, '&');
      assert {'\n', ' ', '(', ')', '*'} + {'&'} == {'\n', ' ', '(', ')', '*', '&'};
    }
    p := FilterMessage(p, "&");
    assert FilterMessage(p, "#") == Strip(pseudo, {'\n', ' ', '(', ')', '*', '&', '#'}) by {
      FilterAfterStrip(pseudo, {'\n', ' ', '(', ')', '*', '&'}, '#');
      assert {'\n', ' ', '(', ')', '*', '&'} + {'#'} == {'\n', ' ', '(', ')', '*', '&', '#'};
    }
    p := FilterMessage(p, "#");
    assert FilterMessage(p, "'") == Strip(pseudo, {'\n', ' ', '(', ')', '*', '&', '#', '\''}) by {
      FilterAfterStrip(pseudo, {'\n', ' ', '(', ')', '*', '&', '#'}, '\'');
      assert {'\n', ' ', '(', ')', '*', '&', '#'} + {'\''} == {'\n', ' ', '(', ')', '*', '&', '#', '\''};
    }
    p := FilterMessage(p, "'");
    assert FilterMessage(p, "=") == Strip(pseudo, {'\n', ' ', '(', ')', '*', '&', '#', '\'', '='}) by {
      FilterAfterStrip(pseudo, {'\n', ' ', '(', ')', '*', '&', '#', '\''}, '=');
      assert {'\n', ' ', '(', ')', '*', '&', '#', '\''} + {'='} == {'\n', ' ', '(', ')', '*', '&', '#', '\'', '='};
    }
    p := FilterMessage(p, "=");
    assert FilterMessage(p, "_") == Strip(pseudo, {'\n', ' ', '(', ')', '*', '&', '#', '\'', '=', '_'}) by {
      FilterAfterStrip(pseudo, {'\n', ' ', '(', ')', '*', '&', '#', '\'', '='}, '_');
      assert {'\n', ' ', '(', ')', '*', '&', '#', '\'', '='} + {'_'} == {'\n', ' ', '(', ')', '*', '&', '#', '\'', '=', '_'};
    }
    p := FilterMessage(p, "_");
  }

  /** A character survives sanitising exactly when it is not forbidden. */
  lemma FilterPseudoMembers(pseudo: string, c: char)
    ensures c in FilterPseudo(pseudo) <==> c in pseudo && c !in Forbidden
  {
    FilterPseudoIsStrip(pseudo);
    StripMembers(pseudo, Forbidden, c);
  }

  /** A pseudo that contains none of the forbidden characters. */
  ghost predicate Sanitised(pseudo: string)
  {
    forall i :: 0 <= i < |pseudo| ==> pseudo[i] !in Forbidden
  }

  /** Sanitising always yields a sanitised pseudo, and the sanitised pseudos are exactly the ones it leaves alone. */
  lemma SanitisedIsFixedPoint(pseudo: string)
    ensures Sanitised(FilterPseudo(pseudo))
    ensures Sanitised(pseudo) <==> FilterPseudo(pseudo) == pseudo
  {
    FilterPseudoIsStrip(pseudo);
    if Sanitised(pseudo) {
      StripNoneOccur(pseudo, Forbidden);
    }
  }

  lemma FilterPseudoIdempotent(pseudo: string)
    ensures FilterPseudo(FilterPseudo(pseudo)) == FilterPseudo(pseudo)
  {
    FilterPseudoIsStrip(pseudo);
    FilterPseudoIsStrip(FilterPseudo(pseudo));
    StripTwice(pseudo, Forbidden, Forbidden);
    assert Forbidden + Forbidden == Forbidden;
  }

  /*** Message templates ***/

  /** The text strictly between `prefix` and `suffix`, when `msg` starts with one and ends with the other. */
  function Between(msg: string, prefix: string, suffix: string): (r: Option<string>)
    ensures r.Some? ==> msg == prefix + r.value + suffix
  {
    if |prefix| + |suffix| <= |msg| && msg[..|prefix|] == prefix && msg[|msg| - |suffix|..] == suffix
    then Some(msg[|prefix|..|msg| - |suffix|])
    else None
  }

  lemma BetweenConcat(prefix: string, x: string, suffix: string)
    ensures Between(prefix + x + suffix, prefix, suffix) == Some(x)
  {
    var msg := prefix + x + suffix;
    assert msg[..|prefix|] == prefix;
    assert msg[|msg| - |suffix|..] == suffix;
    assert msg[|prefix|..|msg| - |suffix|] == x;
  }

  /** `buildWelcomeMessage`: an announcement the pseudo can be read back from. */
  function WelcomeMessage(pseudo: string): (r: string)
    ensures WelcomedPseudo(r) == Some(pseudo)
  {
    BetweenConcat("> Welcome ", pseudo, " !\n");
    "> Welcome " + pseudo + " !\n"
  }

  /** `buildByeMessage`: an announcement the pseudo can be read back from. */
  function ByeMessage(pseudo: string): (r: string)
    ensures ByePseudo(r) == Some(pseudo)
  {
    BetweenConcat("> See you later ", pseudo, " !\n");
    "> See you later " + pseudo + " !\n"
  }

  /** `buildUserMessage`: the sender's pseudo, a colon, the line without its newlines, one newline. */
  function UserMessage(sender: User, message: string): (r: string)
    ensures r == sender.DisplayName() + ": " + Strip(message, {'\n'}) + "\n"
  {
    FilterMessageOneChar(message, '\n');
    sender.DisplayName() + ": " + FilterMessage(message, "\n") + "\n"
  }

  /** `buildTimeoutMessage` (the server never calls it): an announcement the pseudo can be read back from. */
  function TimeoutMessage(user: User): (r: string)
    ensures TimedOutPseudo(r) == Some(user.DisplayName())
  {
    BetweenConcat("> ", user.DisplayName(), " was idle too long and was disconnected.\n");
    "> " + user.DisplayName() + " was idle too long and was disconnected.\n"
  }

  /** Reads the pseudo back out of a welcome announcement. */
  function WelcomedPseudo(msg: string): (r: Option<string>)
  {
    Between(msg, "> Welcome ", " !\n")
  }

  /** Reads the pseudo back out of a farewell announcement. */
  function ByePseudo(msg: string): (r: Option<string>)
  {
    Between(msg, "> See you later ", " !\n")
  }

  /** Reads the pseudo back out of an idle-timeout announcement. */
  function TimedOutPseudo(msg: string): (r: Option<string>)
  {
    Between(msg, "> ", " was idle too long and was disconnected.\n")
  }

  /** Reads the body back out of a chat line sent by `pseudo`. */
  function UserMessageBody(pseudo: string, msg: string): (r: Option<string>)
  {
    Between(msg, pseudo + ": ", "\n")
  }

  /** The welcome template and its reader are inverse to each other. */
  lemma WelcomeRoundTrip(pseudo: string, msg: string)
    ensures WelcomedPseudo(WelcomeMessage(pseudo)) == Some(pseudo)
    ensures WelcomedPseudo(msg) == Some(pseudo) ==> WelcomeMessage(pseudo) == msg
  {
    BetweenConcat("> Welcome ", pseudo, " !\n");
  }

  /** The farewell template and its reader are inverse to each other. */
  lemma ByeRoundTrip(pseudo: string, msg: string)
    ensures ByePseudo(ByeMessage(pseudo)) == Some(pseudo)
    ensures ByePseudo(msg) == Some(pseudo) ==> ByeMessage(pseudo) == msg
  {
    BetweenConcat("> See you later ", pseudo, " !\n");
  }

  /** The idle-timeout template and its reader are inverse to each other. */
  lemma TimeoutRoundTrip(user: User, msg: string)
    ensures TimedOutPseudo(TimeoutMessage(user)) == Some(user.DisplayName())
    ensures TimedOutPseudo(msg) == Some(user.DisplayName()) ==> TimeoutMessage(user) == msg
  {
    BetweenConcat("> ", user.DisplayName(), " was idle too long and was disconnected.\n");
  }

  /**
   * Stripping the prefix "pseudo: " and the final newline from a chat line
   * gives back the sent line with all its newlines removed.
   */
  lemma UserMessageRoundTrip(sender: User, message: string)
    ensures UserMessageBody(sender.DisplayName(), UserMessage(sender, message)) == Some(Strip(message, {'\n'}))
  {
    FilterMessageOneChar(message, '\n');
    var prefix := sender.DisplayName() + ": ";
    assert UserMessage(sender, message) == prefix + FilterMessage(message, "\n") + "\n";
    BetweenConcat(prefix, FilterMessage(message, "\n"), "\n");
  }

  /** A line without embedded newlines, sent with its newline, is relayed as "pseudo: line\n". */
  lemma UserMessageOfLine(sender: User, line: string)
    requires '\n' !in line
    ensures UserMessage(sender, line + "\n") == sender.DisplayName() + ": " + line + "\n"
  {
    FilterMessageOneChar(line + "\n", '\n');
    StripAppend(line, "\n", {'\n'});
    StripNoneOccur(line, {'\n'});
    StripCons('\n', "", {'\n'});
  }

  /** A chat line from a user with a sanitised pseudo is exactly one line: its only newline is the last character. */
  lemma UserMessageIsOneLine(sender: User, message: string)
    requires FilterPseudo(sender.DisplayName()) == sender.DisplayName()
    ensures var r := UserMessage(sender, message);
      && |r| > 0 && r[|r| - 1] == '\n'
      && forall i :: 0 <= i < |r| - 1 ==> r[i] != '\n'
  {
    var name := sender.DisplayName();
    FilterPseudoMembers(name, '\n');
    FilterMessageOneChar(message, '\n');
    var body := FilterMessage(message, "\n");
    var r := UserMessage(sender, message);
    assert r == name + ": " + body + "\n";
    forall i | 0 <= i < |r| - 1
      ensures r[i] != '\n'
    {
      if i < |name| {
        assert r[i] == name[i];
      } else if i < |name| + 2 {
        assert r[i] == ": "[i - |name|];
      } else {
        assert r[i] == body[i - |name| - 2];
      }
    }
  }
}
