/**
  What the room game-state machine guarantees, proved about the functions of module Game:
  one group of lemmas per socket handler, the consistency every handler keeps, and the
  places where the handlers do less than a tidier game would (no deduplication, no host
  hand-over, no threshold check on disconnect).
*/
module GameProperties {
  import opened Wrappers
  import opened Js
  import opened Game

  // ---------------------------------------------------------------------------------------
  // Sequence helpers
  // ---------------------------------------------------------------------------------------

  lemma {:induction false} PlayerNamesAppend(a: seq<SocketId>, b: seq<SocketId>, users: map<SocketId, User>)
    ensures PlayerNames(a + b, users) == PlayerNames(a, users) + PlayerNames(b, users)
    decreases |a|
  {
    if a != [] {
      PlayerNamesAppend(a[1..], b, users);
      var head := if a[0] in users then [users[a[0]].name] else [];
      assert a + b != [] && (a + b)[0] == a[0];
      assert (a + b)[1..] == a[1..] + b;
      calc {
        PlayerNames(a + b, users);
        head + PlayerNames(a[1..] + b, users);
        head + (PlayerNames(a[1..], users) + PlayerNames(b, users));
        (head + PlayerNames(a[1..], users)) + PlayerNames(b, users);
        PlayerNames(a, users) + PlayerNames(b, users);
      }
    } else {
      assert a + b == b;
    }
  }

  /** updatePlayerList drops an unregistered id and keeps the order of the rest. */
  lemma PlayerNamesSkipsUnregistered(a: seq<SocketId>, p: SocketId, b: seq<SocketId>, users: map<SocketId, User>)
    requires p !in users
    ensures PlayerNames(a + [p] + b, users) == PlayerNames(a + b, users)
  {
    PlayerNamesAppend(a + [p], b, users);
    PlayerNamesAppend(a, [p], users);
    PlayerNamesAppend(a, b, users);
    assert PlayerNames([p], users) == [] by {
      assert [p][1..] == [];
    }
  }

  /** When every player is registered, the list holds exactly their names, position by position. */
  lemma {:induction false} PlayerNamesAllRegistered(players: seq<SocketId>, users: map<SocketId, User>)
    requires forall p :: p in players ==> p in users
    ensures |PlayerNames(players, users)| == |players|
    ensures forall i :: 0 <= i < |players| ==> PlayerNames(players, users)[i] == users[players[i]].name
    decreases |players|
  {
    if players != [] {
      PlayerNamesAllRegistered(players[1..], users);
    }
  }

  /** A name is listed exactly when some registered player in the room has it. */
  lemma {:induction false} PlayerNamesMembers(players: seq<SocketId>, users: map<SocketId, User>, name: string)
    ensures name in PlayerNames(players, users) <==> exists p :: p in players && p in users && users[p].name == name
    decreases |players|
  {
    if players != [] {
      PlayerNamesMembers(players[1..], users, name);
      if name in PlayerNames(players[1..], users) {
        var p :| p in players[1..] && p in users && users[p].name == name;
        assert p in players;
      }
      forall p | p in players && p in users && users[p].name == name
        ensures name in PlayerNames(players, users)
      {
        if p != players[0] {
          assert p in players[1..];
        }
      }
    }
  }

  /** A list with a head is duplicate-free exactly when its tail is and omits the head. */
  lemma NoDuplicatesCons(a: SocketId, r: seq<SocketId>)
    ensures NoDuplicates([a] + r) <==> a !in r && NoDuplicates(r)
  {
    var s := [a] + r;
    if NoDuplicates(s) {
      forall k | 0 <= k < |r| ensures r[k] != a {
        assert s[0] == a && s[k + 1] == r[k];
        assert s[0] != s[k + 1];
      }
      forall i, j | 0 <= i < j < |r| ensures r[i] != r[j] {
        assert s[i + 1] == r[i] && s[j + 1] == r[j];
      }
    }
    if a !in r && NoDuplicates(r) {
      forall i, j | 0 <= i < j < |s| ensures s[i] != s[j] {
        assert s[j] == r[j - 1];
        if i > 0 {
          assert s[i] == r[i - 1];
        }
      }
    }
  }

  /** Filtering keeps the players distinct. */
  lemma {:induction false} WithoutNoDuplicates(s: seq<SocketId>, x: SocketId)
    requires NoDuplicates(s)
    ensures NoDuplicates(Without(s, x))
    decreases |s|
  {
    if s != [] {
      assert s == [s[0]] + s[1..];
      NoDuplicatesCons(s[0], s[1..]);
      WithoutNoDuplicates(s[1..], x);
      var rest := Without(s[1..], x);
      if s[0] != x {
        NoDuplicatesCons(s[0], rest);
      } else {
        assert [] + rest == rest;
      }
    }
  }

  /** Filtering out an id that is not listed changes nothing. */
  lemma {:induction false} WithoutAbsent(s: seq<SocketId>, x: SocketId)
    requires x !in s
    ensures Without(s, x) == s
    decreases |s|
  {
    if s != [] {
      assert x !in s[1..];
      WithoutAbsent(s[1..], x);
      assert [s[0]] + s[1..] == s;
    }
  }

  /**
    Filtering out the player at index `i` of a duplicate-free list closes the gap and keeps
    the order of the others.
  */
  lemma {:induction false} WithoutAt(s: seq<SocketId>, i: nat)
    requires NoDuplicates(s) && i < |s|
    ensures Without(s, s[i]) == s[..i] + s[i + 1..]
    decreases i
  {
    var tail := s[1..];
    assert s == [s[0]] + tail;
    NoDuplicatesCons(s[0], tail);
    if i == 0 {
      WithoutAbsent(tail, s[0]);
      calc {
        Without(s, s[0]);
        [] + Without(tail, s[0]);
        tail;
      }
    } else {
      assert s[0] != s[i];
      assert tail[i - 1] == s[i];
      WithoutAt(tail, i - 1);
      calc {
        Without(s, s[i]);
        [s[0]] + Without(tail, s[i]);
        [s[0]] + (tail[..i - 1] + tail[i..]);
        { assert tail[..i - 1] == s[1..i] && tail[i..] == s[i + 1..]; }
        [s[0]] + s[1..i] + s[i + 1..];
        { assert [s[0]] + s[1..i] == s[..i]; }
        s[..i] + s[i + 1..];
      }
    }
  }

  // ---------------------------------------------------------------------------------------
  // The shuffle of the answers
  // ---------------------------------------------------------------------------------------

  /** Taking out the element at `i` leaves the rest of the multiset. */
  lemma MultisetTakeOut<T>(s: seq<T>, i: nat)
    requires i < |s|
    ensures multiset(s) == multiset{s[i]} + multiset(s[..i] + s[i + 1..])
  {
    assert s == s[..i] + [s[i]] + s[i + 1..];
  }

  /** Whatever the picks, the shuffled answers are a permutation of the answers. */
  lemma {:induction false} ShuffledIsPermutation<T>(s: seq<T>, picks: seq<nat>)
    ensures multiset(Shuffled(s, picks)) == multiset(s)
    decreases |s|
  {
    if s != [] {
      var i := if picks != [] && picks[0] < |s| then picks[0] else 0;
      var rest := s[..i] + s[i + 1..];
      var more := if picks != [] then picks[1..] else [];
      ShuffledIsPermutation(rest, more);
      MultisetTakeOut(s, i);
      assert Shuffled(s, picks) == [s[i]] + Shuffled(rest, more);
    }
  }

  /** Every permutation of the answers is the outcome of some picks. */
  lemma {:induction false} ShuffleReachesEveryOrder<T>(s: seq<T>, t: seq<T>) returns (picks: seq<nat>)
    requires multiset(t) == multiset(s)
    ensures Shuffled(s, picks) == t
    decreases |s|
  {
    if s == [] {
      assert |t| == |multiset(t)| == 0;
      picks := [];
    } else {
      assert |t| == |multiset(t)| == |s|;
      var i := FirstPickFor(s, t);
      var rest := s[..i] + s[i + 1..];
      var more := ShuffleReachesEveryOrder(rest, t[1..]);
      picks := [i] + more;
      assert picks[1..] == more;
      assert t == [t[0]] + t[1..];
    }
  }

  /** The position in `s` of the first element of its permutation `t`, and what remains. */
  lemma FirstPickFor<T>(s: seq<T>, t: seq<T>) returns (i: nat)
    requires multiset(t) == multiset(s) && s != []
    ensures i < |s| && t != [] && s[i] == t[0]
    ensures multiset(t[1..]) == multiset(s[..i] + s[i + 1..])
  {
    assert |t| == |multiset(t)| == |s|;
    assert t[0] in multiset(t);
    assert t[0] in s;
    var k :| 0 <= k < |s| && s[k] == t[0];
    i := k;
    MultisetTakeOut(s, i);
    MultisetTakeOut(t, 0);
    assert t[..0] + t[1..] == t[1..];
    MultisetCancel(t[0], multiset(t[1..]), multiset(s[..i] + s[i + 1..]));
  }

  /** Equal multisets with one element taken out of each are equal. */
  lemma MultisetCancel<T>(x: T, a: multiset<T>, b: multiset<T>)
    requires multiset{x} + a == multiset{x} + b
    ensures a == b
  {
    forall y ensures a[y] == b[y] {
      assert (multiset{x} + a)[y] == (multiset{x} + b)[y];
    }
  }

  // ---------------------------------------------------------------------------------------
  // join-room
  // ---------------------------------------------------------------------------------------

  /** An unseen room is created empty with no host, so the joiner is its sole player and its host. */
  lemma JoinCreatesRoom(t: Tables, id: SocketId, room: RoomName, name: string)
    requires room !in t.rooms
    ensures JoinRoom(t, id, room, name).tables.rooms[room] == RoomState([id], [], [], Some(id), None, None, None)
    ensures JoinRoom(t, id, room, name).events[0] == ToSocket(id, IsHost)
  {
  }

  /**
    The joiner is listed afterwards, appended only if it was not listed before, so a room
    whose players are distinct keeps them distinct.
  */
  lemma JoinAddsPlayerOnce(t: Tables, id: SocketId, room: RoomName, name: string)
    requires room in t.rooms
    ensures var p := JoinRoom(t, id, room, name).tables.rooms[room].players;
      && id in p
      && p == (if id in t.rooms[room].players then t.rooms[room].players else t.rooms[room].players + [id])
      && (NoDuplicates(t.rooms[room].players) ==> NoDuplicates(p))
  {
  }

  /**
    The joiner becomes host exactly when the room had no host or the joiner is now its only
    player, and only then is it told so; otherwise the host is unchanged.
  */
  lemma JoinHost(t: Tables, id: SocketId, room: RoomName, name: string)
    ensures var o := JoinRoom(t, id, room, name);
      var before := if room in t.rooms then t.rooms[room] else NewRoom;
      var takes := before.host.None? || |o.tables.rooms[room].players| == 1;
      && o.tables.rooms[room].host == (if takes then Some(id) else before.host)
      && (ToSocket(id, IsHost) in o.events <==> takes)
  {
  }

  /**
    join-room (re)sets the user record with score 0, touches no other user and no other
    room, and leaves the joined room's round state as it was.
  */
  lemma JoinFrame(t: Tables, id: SocketId, room: RoomName, name: string)
    ensures var o := JoinRoom(t, id, room, name);
      && o.tables.users == t.users[id := User(name, room, 0)]
      && o.tables.rooms.Keys == t.rooms.Keys + {room}
      && (forall n :: n in t.rooms && n != room ==> o.tables.rooms[n] == t.rooms[n])
      && (room in t.rooms ==>
            var r := t.rooms[room];
            var r' := o.tables.rooms[room];
            r'.answers == r.answers && r'.votes == r.votes && r'.currentSubject == r.currentSubject
            && r'.maxRounds == r.maxRounds && r'.currentRound == r.currentRound)
  {
  }

  /** Everyone in the room is sent the names of the registered players, the joiner's included. */
  lemma JoinBroadcastsNames(t: Tables, id: SocketId, room: RoomName, name: string)
    ensures var o := JoinRoom(t, id, room, name);
      var names := PlayerNames(o.tables.rooms[room].players, o.tables.users);
      && o.events[|o.events| - 1] == ToRoom(room, PlayerList(names))
      && name in names
  {
    var o := JoinRoom(t, id, room, name);
    var players := o.tables.rooms[room].players;
    assert id in players && id in o.tables.users && o.tables.users[id].name == name;
    PlayerNamesMembers(players, o.tables.users, name);
  }

  // ---------------------------------------------------------------------------------------
  // request-start-game and startNewRound
  // ---------------------------------------------------------------------------------------

  /**
    A count that starts with a run of decimal digits, leading zeros included, is used as its
    value, except that 0 falls back to 5.
  */
  lemma RoundCountOfDigits(ws: string, sign: string, ds: string, rest: string)
    requires forall i :: 0 <= i < |ws| ==> IsJsWhitespace(ws[i])
    requires sign == "" || sign == "+" || sign == "-"
    requires ds != [] && AllDigits(ds, 10)
    requires rest == [] || (!IsDigit(rest[0], 10) && !(ds == "0" && (rest[0] == 'x' || rest[0] == 'X')))
    ensures RoundCount(ws + sign + ds + rest)
            == if ValueOf(ds, 10) == 0 then DefaultRounds else if sign == "-" then -ValueOf(ds, 10) else ValueOf(ds, 10)
  {
    ParseIntDigits(ws, sign, ds, rest);
  }

  /** Text that does not begin with a number (after white space and a sign) gives 5 rounds. */
  lemma RoundCountOfNonNumber(s: string)
    requires s == [] || (!IsDigit(s[0], 10) && !IsJsWhitespace(s[0]) && s[0] != '+' && s[0] != '-')
    ensures RoundCount(s) == DefaultRounds
  {
  }

  /** A count written as the decimal numeral of `n` is used as it is, except that 0 falls back to 5. */
  lemma RoundCountOfDecimal(ws: string, sign: string, n: nat, rest: string)
    requires forall i :: 0 <= i < |ws| ==> IsJsWhitespace(ws[i])
    requires sign == "" || sign == "+" || sign == "-"
    requires rest == [] || (!IsDigit(rest[0], 10) && !(n == 0 && (rest[0] == 'x' || rest[0] == 'X')))
    ensures RoundCount(ws + sign + Decimal(n) + rest) == if n == 0 then DefaultRounds else if sign == "-" then -(n as int) else n
  {
    ParseIntDecimal(ws, sign, n, rest);
  }

  /** "3rounds" asks for 3 rounds and "ten" falls back to 5, as parseInt reads them. */
  lemma RoundCountExamples()
    ensures RoundCount("3rounds") == 3
    ensures RoundCount(" -2") == -2
    ensures RoundCount("ten") == DefaultRounds
  {
    assert "3rounds" == "" + "" + Decimal(3) + "rounds";
    RoundCountOfDecimal("", "", 3, "rounds");
    assert " -2" == " " + "-" + Decimal(2) + "";
    RoundCountOfDecimal(" ", "-", 2, "");
    RoundCountOfNonNumber("ten");
  }

  /** Leading zeros are read as decimal digits: "007" asks for 7 rounds. */
  lemma RoundCountLeadingZeros()
    ensures RoundCount("007") == 7
  {
    ParseIntLeadingZeros();
  }

  /** request-start-game changes nothing and sends nothing unless the sender is its room's host. */
  lemma StartOnlyByHost(t: Tables, id: SocketId, totalRounds: string, pool: seq<string>, qi: nat, pi: nat)
    ensures RequestStart(t, id, totalRounds, pool, qi, pi).events == [] <==> !MayStart(t, id)
    ensures !MayStart(t, id) ==> RequestStart(t, id, totalRounds, pool, qi, pi) == Outcome(t, [])
  {
  }

  /**
    When the host starts the game, the room's round limit is the parsed count, the round
    counter is 1, a new round has begun in that room, and nothing else changes. Round 1's
    subject and question are chosen as `NewRoundSubject` states for any round.
  */
  lemma StartSetsRounds(t: Tables, id: SocketId, totalRounds: string, pool: seq<string>, qi: nat, pi: nat)
    requires MayStart(t, id)
    ensures var name := t.users[id].room;
      var o := RequestStart(t, id, totalRounds, pool, qi, pi);
      var r := t.rooms[name];
      var r' := o.tables.rooms[name];
      && r'.maxRounds == Some(RoundCount(totalRounds))
      && r'.currentRound == Some(1)
      && r'.answers == [] && r'.votes == []
      && r'.players == r.players && r'.host == r.host
      && o.tables.users == t.users
      && o.tables.rooms.Keys == t.rooms.Keys
      && (forall n :: n in t.rooms && n != name ==> o.tables.rooms[n] == t.rooms[n])
      && o.events[0] == ToRoom(name, StartingRound(Some(1), Some(RoundCount(totalRounds))))
      && var picked := qi < |pool| && Contains(pool[qi], PlayerTag)
                       && |r.players| > 0 && pi < |r.players| && r.players[pi] in t.users;
      && (r'.currentSubject.Some? <==> picked)
      && (picked ==> r'.currentSubject == Some(r.players[pi]))
      && |o.events| == 2
      && o.events[1] == ToRoom(name, Question(
           if picked then Some(JsReplace(pool[qi], PlayerTag, t.users[r.players[pi]].name))
           else QuestionAt(pool, qi)))
  {
  }

  /**
    startNewRound clears the round's answers and votes, sets the subject and changes no
    other field of the room.
  */
  lemma NewRoundResets(r: RoomState, users: map<SocketId, User>, pool: seq<string>, qi: nat, pi: nat, roomName: RoomName)
    ensures var r' := NewRound(r, users, pool, qi, pi, roomName).room;
      && r'.answers == [] && r'.votes == []
      && r' == r.(answers := [], votes := [], currentSubject := r'.currentSubject)
  {
  }

  /**
    A subject is chosen exactly when the question holds the placeholder, the room has players
    and the chosen id is registered; the subject is then a player of the room and its name is
    put in place of the first placeholder. Otherwise the text is sent unchanged and there is
    no subject.
  */
  lemma NewRoundSubject(r: RoomState, users: map<SocketId, User>, pool: seq<string>, qi: nat, pi: nat, roomName: RoomName)
    ensures var s := NewRound(r, users, pool, qi, pi, roomName);
      var picked := qi < |pool| && Contains(pool[qi], PlayerTag)
                    && |r.players| > 0 && pi < |r.players| && r.players[pi] in users;
      && (s.room.currentSubject.Some? <==> picked)
      && (picked ==> s.room.currentSubject == Some(r.players[pi]) && r.players[pi] in r.players)
      && s.events[1] == ToRoom(roomName, Question(
           if picked then Some(JsReplace(pool[qi], PlayerTag, users[r.players[pi]].name))
           else QuestionAt(pool, qi)))
  {
  }

  /**
    A question "pre{player}post" whose `pre` does not hold "{player}" reads "pre<name>post"
    for the chosen subject's name, as long as the name holds no `$`.
  */
  lemma NewRoundSubstitutesName(r: RoomState, users: map<SocketId, User>, pool: seq<string>, qi: nat, pi: nat, roomName: RoomName, pre: string, post: string)
    requires qi < |pool| && pool[qi] == pre + PlayerTag + post && !Contains(pre, PlayerTag)
    requires pi < |r.players| && r.players[pi] in users
    requires '$' !in users[r.players[pi]].name
    ensures var s := NewRound(r, users, pool, qi, pi, roomName);
      && s.room.currentSubject == Some(r.players[pi])
      && s.events[1] == ToRoom(roomName, Question(Some(pre + users[r.players[pi]].name + post)))
  {
    var name := users[r.players[pi]].name;
    PlayerTagDoesNotOverlap();
    ReplaceFirstAfterPrefix(pre, PlayerTag, post, name);
    JsReplaceWithoutDollar(pool[qi], PlayerTag, name);
    assert Contains(pool[qi], PlayerTag);
    NewRoundSubject(r, users, pool, qi, pi, roomName);
  }

  /**
    The intended text puts any name, `$` or not, in place of the placeholder literally, for
    a question "pre{player}post" whose `pre` does not hold "{player}".
  */
  lemma IntendedTextSubstitutesName(users: map<SocketId, User>, id: SocketId, pre: string, post: string)
    requires id in users && !Contains(pre, PlayerTag)
    ensures IntendedQuestionText(Some(pre + PlayerTag + post), Some(id), users)
            == Some(pre + users[id].name + post)
  {
    PlayerTagDoesNotOverlap();
    ReplaceFirstAfterPrefix(pre, PlayerTag, post, users[id].name);
  }

  /** The text as written and the intended text agree on every name without a `$`. */
  lemma QuestionTextAsIntended(question: Option<string>, subject: Option<SocketId>, users: map<SocketId, User>)
    requires subject.Some? ==> question.Some? && subject.value in users
    requires subject.Some? ==> '$' !in users[subject.value].name
    ensures QuestionText(question, subject, users) == IntendedQuestionText(question, subject, users)
  {
    if subject.Some? {
      JsReplaceWithoutDollar(question.value, PlayerTag, users[subject.value].name);
    }
  }

  /**
    The server substitutes the name with JavaScript's `replace`, which expands `$` patterns in
    the replacement: for a player named "$&" every question comes out unchanged, placeholder
    and all, where the literal substitution of "pre{player}post", for a `pre` that does not
    hold "{player}", gives "pre$&post".
  */
  lemma DollarNameKeepsPlaceholder(pre: string, post: string)
    ensures JsReplace(pre + PlayerTag + post, PlayerTag, "$&") == pre + PlayerTag + post
    ensures !Contains(pre, PlayerTag) ==> ReplaceFirst(pre + PlayerTag + post, PlayerTag, "$&") == pre + "$&" + post
  {
    PlayerTagDoesNotOverlap();
    JsReplaceMatchKeepsText(pre + PlayerTag + post, PlayerTag);
    if !Contains(pre, PlayerTag) {
      ReplaceFirstAfterPrefix(pre, PlayerTag, post, "$&");
    }
  }

  /** The placeholder cannot overlap itself: its `{` does not recur in it. */
  lemma PlayerTagDoesNotOverlap()
    ensures |PlayerTag| > 0 && PlayerTag[0] !in PlayerTag[1..]
  {
  }

  // ---------------------------------------------------------------------------------------
  // submit-answer
  // ---------------------------------------------------------------------------------------

  /**
    submit-answer from a registered sender adds exactly one answer: numbered by the previous
    count, with no votes, by the sender, true exactly when the sender is the subject. Below
    the threshold the answers are kept in order and only the sender is told to wait.
  */
  lemma AnswerAppends(t: Tables, id: SocketId, text: string, picks: seq<nat>)
    requires RoomOfSenderExists(t, id) && id in t.users
    ensures var u := t.users[id];
      var r := t.rooms[u.room];
      var a := Answer(|r.answers|, id, u.name, text, 0, 0, r.currentSubject == Some(id));
      var o := SubmitAnswer(t, id, text, picks);
      var r' := o.tables.rooms[u.room];
      && |r'.answers| == |r.answers| + 1
      && multiset(r'.answers) == multiset(r.answers + [a])
      && (|r.answers| + 1 != |r.players| ==> r'.answers == r.answers + [a] && o.events == [ToSocket(id, WaitingForAnswers)])
      && r' == r.(answers := r'.answers)
      && o.tables.users == t.users
      && o.tables.rooms.Keys == t.rooms.Keys
      && (forall n :: n in t.rooms && n != u.room ==> o.tables.rooms[n] == t.rooms[n])
  {
    var u := t.users[id];
    var r := t.rooms[u.room];
    ShuffledIsPermutation(r.answers + [NewAnswer(r, id, u, text)], picks);
  }

  /**
    Voting is broadcast to the room exactly when the answer count reaches the player count,
    and what is broadcast is the shuffled list the room now holds.
  */
  lemma AnswerOpensVoting(t: Tables, id: SocketId, text: string, picks: seq<nat>)
    requires RoomOfSenderExists(t, id) && id in t.users
    ensures var u := t.users[id];
      var r := t.rooms[u.room];
      var o := SubmitAnswer(t, id, text, picks);
      && ((exists xs :: o.events == [ToRoom(u.room, StartVoting(xs))]) <==> |r.answers| + 1 == |r.players|)
      && (|r.answers| + 1 == |r.players| ==> o.events == [ToRoom(u.room, StartVoting(o.tables.rooms[u.room].answers))])
  {
  }

  /** An unregistered sender's answer is ignored. */
  lemma AnswerFromUnregistered(t: Tables, id: SocketId, text: string, picks: seq<nat>)
    requires id !in t.users
    ensures SubmitAnswer(t, id, text, picks) == Outcome(t, [])
  {
  }

  /**
    Answers are not deduplicated: in a room of two, one player answering twice opens the
    voting although the other player has not answered.
  */
  lemma RepeatAnswerOpensVoting(t: Tables, a: SocketId, b: SocketId, room: RoomName, picks1: seq<nat>, picks2: seq<nat>)
    requires a in t.users && t.users[a].room == room && room in t.rooms
    requires t.rooms[room].players == [a, b] && t.rooms[room].answers == []
    ensures var o1 := SubmitAnswer(t, a, "first", picks1);
      var o2 := SubmitAnswer(o1.tables, a, "second", picks2);
      && o1.events == [ToSocket(a, WaitingForAnswers)]
      && |o2.tables.rooms[room].answers| == 2
      && (forall i :: 0 <= i < 2 ==> o2.tables.rooms[room].answers[i].socketId == a)
      && o2.events == [ToRoom(room, StartVoting(o2.tables.rooms[room].answers))]
  {
    var o1 := SubmitAnswer(t, a, "first", picks1);
    var o2 := SubmitAnswer(o1.tables, a, "second", picks2);
    var both := o1.tables.rooms[room].answers + [NewAnswer(o1.tables.rooms[room], a, t.users[a], "second")];
    ShuffledIsPermutation(both, picks2);
    forall i | 0 <= i < 2 ensures o2.tables.rooms[room].answers[i].socketId == a {
      var x := o2.tables.rooms[room].answers[i];
      assert x in multiset(both);
      assert x in both;
    }
  }

  // ---------------------------------------------------------------------------------------
  // submit-vote
  // ---------------------------------------------------------------------------------------

  /**
    Scoring: the user table keeps its ids, names and rooms, and exactly the beneficiary of the
    truth vote gains the bonus: the voter when the chosen answer is the truth, otherwise its
    author if still registered. An out-of-range truth index awards nothing.
  */
  lemma VoteScoring(t: Tables, id: SocketId, truthIndex: Option<int>, funnyIndex: Option<int>)
    requires RoomOfSenderExists(t, id) && id in t.users
    ensures var answers := t.rooms[t.users[id].room].answers;
      var users' := SubmitVote(t, id, truthIndex, funnyIndex).tables.users;
      var winner := if !InRange(truthIndex, |answers|) then None
                    else if answers[truthIndex.value].isCorrect then Some(id)
                    else if answers[truthIndex.value].socketId in t.users then Some(answers[truthIndex.value].socketId)
                    else None;
      && users'.Keys == t.users.Keys
      && (forall u :: u in t.users ==>
            users'[u] == t.users[u].(score := t.users[u].score + (if winner == Some(u) then Bonus else 0)))
  {
  }

  /** A funny vote never affects any score. */
  lemma FunnyVoteNeverScores(t: Tables, id: SocketId, truthIndex: Option<int>, funny1: Option<int>, funny2: Option<int>)
    requires RoomOfSenderExists(t, id)
    ensures SubmitVote(t, id, truthIndex, funny1).tables.users == SubmitVote(t, id, truthIndex, funny2).tables.users
  {
  }

  /** An unregistered sender's vote is ignored. */
  lemma VoteFromUnregistered(t: Tables, id: SocketId, truthIndex: Option<int>, funnyIndex: Option<int>)
    requires id !in t.users
    ensures SubmitVote(t, id, truthIndex, funnyIndex) == VoteOutcome(t, [], NoFollowup)
  {
  }

  /**
    Counting a ballot adds one vote to the answer at the truth index and one funny vote to
    the answer at the funny index, when each is an index of the list, and changes nothing else.
  */
  lemma CountedAnswers(answers: seq<Answer>, truthIndex: Option<int>, funnyIndex: Option<int>)
    ensures var counted := CountFunny(CountTruth(answers, truthIndex), funnyIndex);
      && |counted| == |answers|
      && forall i :: 0 <= i < |answers| ==>
           counted[i] == answers[i].(
             votes := answers[i].votes + (if truthIndex == Some(i) then 1 else 0),
             funnyVotes := answers[i].funnyVotes + (if funnyIndex == Some(i) then 1 else 0))
  {
  }

  /**
    Below the threshold, the truth vote adds one vote to the chosen answer and the funny vote
    one funny vote to its answer, nothing else in the answers changes, the voter's name is
    recorded (repeat votes included) and only the voter is told to wait.
  */
  lemma VoteCounts(t: Tables, id: SocketId, truthIndex: Option<int>, funnyIndex: Option<int>)
    requires RoomOfSenderExists(t, id) && id in t.users
    requires var r := t.rooms[t.users[id].room]; |r.votes| + 1 != |r.players|
    ensures var u := t.users[id];
      var r := t.rooms[u.room];
      var o := SubmitVote(t, id, truthIndex, funnyIndex);
      var r' := o.tables.rooms[u.room];
      && |r'.answers| == |r.answers|
      && (forall i :: 0 <= i < |r.answers| ==>
            r'.answers[i] == r.answers[i].(
              votes := r.answers[i].votes + (if truthIndex == Some(i) then 1 else 0),
              funnyVotes := r.answers[i].funnyVotes + (if funnyIndex == Some(i) then 1 else 0)))
      && r'.votes == r.votes + [u.name]
      && r' == r.(answers := r'.answers, votes := r'.votes)
      && o.events == [ToSocket(id, WaitingForVotes)]
      && o.followup == NoFollowup
      && o.tables.rooms.Keys == t.rooms.Keys
      && (forall n :: n in t.rooms && n != u.room ==> o.tables.rooms[n] == t.rooms[n])
  {
    CountedAnswers(t.rooms[t.users[id].room].answers, truthIndex, funnyIndex);
  }

  /** The results hold one entry per answer, in order, with its author, text, counters and truth flag. */
  lemma {:induction false} ResultsMatchAnswers(answers: seq<Answer>)
    ensures |Results(answers)| == |answers|
    ensures forall i :: 0 <= i < |answers| ==>
      Results(answers)[i] == ResultEntry(answers[i].author, answers[i].text, answers[i].votes, answers[i].funnyVotes, answers[i].isCorrect)
    decreases |answers|
  {
    if answers != [] {
      ResultsMatchAnswers(answers[1..]);
    }
  }

  /**
    The vote that brings the vote count to the player count publishes the results of the
    counted answers, one entry per answer with this ballot counted in, clears answers and votes, advances the round counter exactly when it is
    below the limit, and schedules the next round in that case and the game-over step otherwise.
  */
  lemma VoteCompletesRound(t: Tables, id: SocketId, truthIndex: Option<int>, funnyIndex: Option<int>)
    requires RoomOfSenderExists(t, id) && id in t.users
    requires var r := t.rooms[t.users[id].room]; |r.votes| + 1 == |r.players|
    ensures var u := t.users[id];
      var r := t.rooms[u.room];
      var counted := CountFunny(CountTruth(r.answers, truthIndex), funnyIndex);
      var o := SubmitVote(t, id, truthIndex, funnyIndex);
      var r' := o.tables.rooms[u.room];
      var more := r.currentRound.Some? && r.maxRounds.Some? && r.currentRound.value < r.maxRounds.value;
      && o.events == [ToRoom(u.room, ShowResults(Results(counted)))]
      && |Results(counted)| == |r.answers|
      && (forall i :: 0 <= i < |r.answers| ==>
            Results(counted)[i] == ResultEntry(r.answers[i].author, r.answers[i].text,
              r.answers[i].votes + (if truthIndex == Some(i) then 1 else 0),
              r.answers[i].funnyVotes + (if funnyIndex == Some(i) then 1 else 0),
              r.answers[i].isCorrect))
      && r'.answers == [] && r'.votes == []
      && r'.currentRound == (if more then Some(r.currentRound.value + 1) else r.currentRound)
      && (o.followup == NextRoundLater <==> more)
      && (o.followup == GameOverLater <==> !more)
      && r' == r.(answers := [], votes := [], currentRound := r'.currentRound)
      && o.tables.rooms.Keys == t.rooms.Keys
      && (forall n :: n in t.rooms && n != u.room ==> o.tables.rooms[n] == t.rooms[n])
  {
    var r := t.rooms[t.users[id].room];
    CountedAnswers(r.answers, truthIndex, funnyIndex);
    ResultsMatchAnswers(CountFunny(CountTruth(r.answers, truthIndex), funnyIndex));
  }

  /** The game-over step sets the round counter to 0 and changes nothing else. */
  lemma GameOverResets(r: RoomState, roomName: RoomName)
    ensures GameOver(r, roomName).room == r.(currentRound := Some(0))
    ensures GameOver(r, roomName).room.currentRound == Some(0)
  {
  }

  // ---------------------------------------------------------------------------------------
  // disconnect
  // ---------------------------------------------------------------------------------------

  /**
    disconnect removes the socket from its room's players and deletes its user record; the
    room is deleted exactly when no player is left; every other room and user is unchanged.
  */
  lemma DisconnectRemoves(t: Tables, id: SocketId)
    requires id in t.users && t.users[id].room in t.rooms
    ensures var u := t.users[id];
      var players := Without(t.rooms[u.room].players, id);
      var o := Disconnect(t, id);
      && o.tables.users == t.users - {id}
      && (u.room in o.tables.rooms <==> players != [])
      && (players != [] ==> o.tables.rooms[u.room] == t.rooms[u.room].(players := players))
      && id !in players
      && (forall p :: p in players <==> p in t.rooms[u.room].players && p != id)
      && (var ps := t.rooms[u.room].players;
          NoDuplicates(ps) ==> forall i :: 0 <= i < |ps| && ps[i] == id ==> players == ps[..i] + ps[i + 1..])
      && o.tables.rooms.Keys - {u.room} == t.rooms.Keys - {u.room}
      && (forall n :: n in t.rooms && n != u.room ==> o.tables.rooms[n] == t.rooms[n])
  {
    var ps := t.rooms[t.users[id].room].players;
    if NoDuplicates(ps) {
      forall i | 0 <= i < |ps| && ps[i] == id
        ensures Without(ps, id) == ps[..i] + ps[i + 1..]
      {
        WithoutAt(ps, i);
      }
    }
  }

  /** An unregistered socket's disconnect changes nothing. */
  lemma DisconnectUnregistered(t: Tables, id: SocketId)
    requires id !in t.users
    ensures Disconnect(t, id) == Outcome(t, [])
  {
  }

  /**
    disconnect leaves a surviving room's host, subject, answers, votes and counters as they
    were and never opens the voting: the thresholds are not re-checked and the host is not
    handed over.
  */
  lemma DisconnectKeepsRoundState(t: Tables, id: SocketId)
    requires id in t.users && t.users[id].room in t.rooms
    ensures var o := Disconnect(t, id);
      var n := t.users[id].room;
      && (n in o.tables.rooms ==>
            var r := t.rooms[n];
            var r' := o.tables.rooms[n];
            r'.host == r.host && r'.currentSubject == r.currentSubject && r'.answers == r.answers
            && r'.votes == r.votes && r'.maxRounds == r.maxRounds && r'.currentRound == r.currentRound)
      && (forall e :: e in o.events ==> !e.msg.StartVoting? && !e.msg.ShowResults?)
  {
  }

  // ---------------------------------------------------------------------------------------
  // The consistency every handler keeps
  // ---------------------------------------------------------------------------------------

  lemma InitialInv()
    ensures Inv(InitialTables)
  {
  }

  /** The consistency implies what submit-answer and submit-vote rely on. */
  lemma InvRoomOfSenderExists(t: Tables, id: SocketId)
    requires Inv(t)
    ensures RoomOfSenderExists(t, id)
  {
  }

  /** Replacing one room's record by one with the same players keeps the consistency. */
  lemma InvSamePlayers(t: Tables, n: RoomName, r: RoomState)
    requires Inv(t) && n in t.rooms && r.players == t.rooms[n].players
    ensures Inv(t.(rooms := t.rooms[n := r]))
  {
  }

  lemma JoinKeepsInv(t: Tables, id: SocketId, room: RoomName, name: string)
    requires Inv(t)
    ensures Inv(JoinRoom(t, id, room, name).tables)
  {
  }

  lemma StartKeepsInv(t: Tables, id: SocketId, totalRounds: string, pool: seq<string>, qi: nat, pi: nat)
    requires Inv(t)
    ensures Inv(RequestStart(t, id, totalRounds, pool, qi, pi).tables)
  {
  }

  lemma AnswerKeepsInv(t: Tables, id: SocketId, text: string, picks: seq<nat>)
    requires Inv(t)
    ensures RoomOfSenderExists(t, id) && Inv(SubmitAnswer(t, id, text, picks).tables)
  {
  }

  lemma VoteKeepsInv(t: Tables, id: SocketId, truthIndex: Option<int>, funnyIndex: Option<int>)
    requires Inv(t)
    ensures RoomOfSenderExists(t, id) && Inv(SubmitVote(t, id, truthIndex, funnyIndex).tables)
  {
  }

  lemma DisconnectKeepsInv(t: Tables, id: SocketId)
    requires Inv(t)
    ensures Inv(Disconnect(t, id).tables)
  {
    if id in t.users {
      var n := t.users[id].room;
      var players := Without(t.rooms[n].players, id);
      var t' := Disconnect(t, id).tables;
      WithoutNoDuplicates(t.rooms[n].players, id);
      forall v | v in t'.users
        ensures t'.users[v].room in t'.rooms && v in t'.rooms[t'.users[v].room].players
      {
        assert v != id && t'.users[v] == t.users[v];
        var m := t.users[v].room;
        assert v in t.rooms[m].players;
        if m == n {
          assert v in players;
        }
      }
    }
  }

  /** The timer steps change no room's players, so they keep the consistency. */
  lemma TimersKeepInv(t: Tables, n: RoomName, pool: seq<string>, qi: nat, pi: nat)
    requires Inv(t) && n in t.rooms
    ensures Inv(t.(rooms := t.rooms[n := NewRound(t.rooms[n], t.users, pool, qi, pi, n).room]))
    ensures Inv(t.(rooms := t.rooms[n := GameOver(t.rooms[n], n).room]))
  {
  }
}
