/**
  The room game-state machine of the game server, as values. `Tables` holds the server's
  two global tables: `rooms` (room name to room record) and `users` (socket id to user
  record). Each socket handler is a function from the tables before the event to the
  tables after it, together with the messages the handler emits. The server's calls to
  `Math.random` become explicit choice parameters, and each `setTimeout` continuation
  becomes a function of its own that the caller applies when the timer fires.
*/
module Game {
  import opened Wrappers
  import opened Js

  type SocketId = string
  type RoomName = string

  /** The placeholder a question may contain for the name of the round's subject. */
  const PlayerTag: string := "{player}"
  /** The round count used when the requested count parses to NaN or to 0. */
  const DefaultRounds: int := 5
  /** The points one truth vote awards to exactly one player. */
  const Bonus: int := 10

  datatype User = User(name: string, room: RoomName, score: int)

  datatype Answer = Answer(
    id: nat,              // the number of answers before this one, when it was submitted
    socketId: SocketId,   // the author's socket
    author: string,       // the author's name when it was submitted
    text: string,
    votes: nat,           // truth votes received
    funnyVotes: nat,
    isCorrect: bool)      // submitted by the round's subject

  /** One entry of the results broadcast. */
  datatype ResultEntry = ResultEntry(author: string, text: string, score: nat, funnyScore: nat, isCorrect: bool)

  /**
    A room record. The subject and both round counters are `undefined` until the host
    starts the game; `None` stands for `undefined` and for `null` alike.
  */
  datatype RoomState = RoomState(
    players: seq<SocketId>,
    answers: seq<Answer>,
    votes: seq<string>,
    host: Option<SocketId>,
    currentSubject: Option<SocketId>,
    maxRounds: Option<int>,
    currentRound: Option<int>)

  /** The record join-room creates for a room name it has not seen. */
  const NewRoom: RoomState := RoomState([], [], [], None, None, None, None)

  datatype Tables = Tables(rooms: map<RoomName, RoomState>, users: map<SocketId, User>)

  const InitialTables: Tables := Tables(map[], map[])

  /** The payload of an outbound message. */
  datatype Msg =
    | IsHost                                              // 'is-host'
    | JoinedNotice(name: string)                          // 'notification', someone joined
    | LeftNotice(name: string)                            // 'notification', someone left
    | WaitingForPlayers(count: nat)                       // 'wait-screen' after a join
    | PlayerList(names: seq<string>)                      // 'update-player-list'
    | StartingRound(round: Option<int>, maxRounds: Option<int>)  // 'wait-screen' at round start
    | Question(text: Option<string>)                      // 'new-round'
    | WaitingForAnswers                                   // 'wait-screen' to one answerer
    | StartVoting(answers: seq<Answer>)                   // 'start-voting'
    | WaitingForVotes                                     // 'wait-screen' to one voter
    | ShowResults(results: seq<ResultEntry>)              // 'show-results'
    | GameOverScreen                                      // 'wait-screen' "!GAME OVER!"

  /** A message to every socket in a room, or to one socket. */
  datatype Event = ToRoom(room: RoomName, msg: Msg) | ToSocket(socket: SocketId, msg: Msg)

  /** The timer a completed vote schedules. */
  datatype Followup = NoFollowup | NextRoundLater | GameOverLater

  datatype Outcome = Outcome(tables: Tables, events: seq<Event>)
  datatype RoomStep = RoomStep(room: RoomState, events: seq<Event>)
  datatype VoteOutcome = VoteOutcome(tables: Tables, events: seq<Event>, followup: Followup)

  predicate NoDuplicates<T(==)>(s: seq<T>)
  {
    forall i, j :: 0 <= i < j < |s| ==> s[i] != s[j]
  }

  /**
    The consistency the handlers keep: every registered user's room exists and lists the
    user, and every room has at least one player and lists each player once.
  */
  ghost predicate Inv(t: Tables)
  {
    && (forall id :: id in t.users ==> t.users[id].room in t.rooms)
    && (forall id :: id in t.users ==> id in t.rooms[t.users[id].room].players)
    && (forall n :: n in t.rooms ==> t.rooms[n].players != [] && NoDuplicates(t.rooms[n].players))
  }

  /** What submit-answer and submit-vote rely on: the sender's room exists. */
  predicate RoomOfSenderExists(t: Tables, id: SocketId)
  {
    id in t.users ==> t.users[id].room in t.rooms
  }

  // ---------------------------------------------------------------------------------------
  // updatePlayerList
  // ---------------------------------------------------------------------------------------

  /** The names of the registered players, in player order; unregistered ids are skipped. */
  function PlayerNames(players: seq<SocketId>, users: map<SocketId, User>): (names: seq<string>)
    ensures |names| <= |players|
  {
    if players == [] then []
    else
      (if players[0] in users then [users[players[0]].name] else [])
      + PlayerNames(players[1..], users)
  }

  /** The player-list broadcast for a room; nothing when the room does not exist. */
  function UpdatePlayerList(t: Tables, room: RoomName): (events: seq<Event>)
    ensures |events| == if room in t.rooms then 1 else 0
    ensures forall e :: e in events ==> e.ToRoom? && e.room == room
  {
    if room in t.rooms then [ToRoom(room, PlayerList(PlayerNames(t.rooms[room].players, t.users)))]
    else []
  }

  // ---------------------------------------------------------------------------------------
  // join-room
  // ---------------------------------------------------------------------------------------

  /** `players`, with `id` appended unless it is already listed. */
  function WithPlayer(players: seq<SocketId>, id: SocketId): seq<SocketId>
  {
    if id in players then players else players + [id]
  }

  /** The joiner becomes host when the room has none or the joiner is now its only player. */
  predicate TakesHost(r: RoomState, players: seq<SocketId>)
  {
    r.host.None? || |players| == 1
  }

  /** join-room: register the sender in the room, creating the room when it is new. */
  function JoinRoom(t: Tables, id: SocketId, room: RoomName, name: string): (o: Outcome)
    ensures id in o.tables.users && o.tables.users[id].room == room
    ensures room in o.tables.rooms && id in o.tables.rooms[room].players
  {
    var users := t.users[id := User(name, room, 0)];
    var r := if room in t.rooms then t.rooms[room] else NewRoom;
    var players := WithPlayer(r.players, id);
    var takesHost := TakesHost(r, players);
    var r' := r.(players := players, host := if takesHost then Some(id) else r.host);
    var t' := Tables(t.rooms[room := r'], users);
    Outcome(t',
      (if takesHost then [ToSocket(id, IsHost)] else [])
      + [ToRoom(room, JoinedNotice(name)), ToRoom(room, WaitingForPlayers(|players|))]
      + UpdatePlayerList(t', room))
  }

  // ---------------------------------------------------------------------------------------
  // startNewRound
  // ---------------------------------------------------------------------------------------

  /** `questions[qi]`; an index past the end yields `undefined`. */
  function QuestionAt(pool: seq<string>, qi: nat): Option<string>
  {
    if qi < |pool| then Some(pool[qi]) else None
  }

  /**
    The round's subject: the chosen player, when the question text is non-empty and holds
    the placeholder, the room has players and the chosen id is still registered.
  */
  function PickSubject(question: Option<string>, players: seq<SocketId>, users: map<SocketId, User>, pi: nat): (s: Option<SocketId>)
    ensures s.Some? ==> s.value in users && s.value in players
  {
    if question.Some? && question.value != "" && Contains(question.value, PlayerTag)
       && |players| > 0 && pi < |players| && players[pi] in users
    then Some(players[pi])
    else None
  }

  /**
    The question text as sent: the first placeholder replaced, by JavaScript's `replace`, with
    the subject's name, so `$` patterns in the name are expanded.
  */
  function QuestionText(question: Option<string>, subject: Option<SocketId>, users: map<SocketId, User>): Option<string>
    requires subject.Some? ==> question.Some? && subject.value in users
  {
    if subject.Some? then Some(JsReplace(question.value, PlayerTag, users[subject.value].name))
    else question
  }

  /** The question text as evidently intended: the subject's name put in literally. */
  function IntendedQuestionText(question: Option<string>, subject: Option<SocketId>, users: map<SocketId, User>): Option<string>
    requires subject.Some? ==> question.Some? && subject.value in users
  {
    if subject.Some? then Some(ReplaceFirst(question.value, PlayerTag, users[subject.value].name))
    else question
  }

  /**
    startNewRound on a room record: pick question `qi` and player `pi`, set the subject and
    clear the round's answers and votes. The question is broadcast after a delay.
  */
  function NewRound(r: RoomState, users: map<SocketId, User>, pool: seq<string>, qi: nat, pi: nat, roomName: RoomName): (s: RoomStep)
    ensures s.room.players == r.players && s.room.host == r.host
    ensures s.room.maxRounds == r.maxRounds && s.room.currentRound == r.currentRound
    ensures s.room.currentSubject.Some? ==> s.room.currentSubject.value in r.players && s.room.currentSubject.value in users
    ensures |s.events| == 2
  {
    var question := QuestionAt(pool, qi);
    var subject := PickSubject(question, r.players, users, pi);
    RoomStep(
      r.(currentSubject := subject, answers := [], votes := []),
      [ToRoom(roomName, StartingRound(r.currentRound, r.maxRounds)),
       ToRoom(roomName, Question(QuestionText(question, subject, users)))])
  }

  // ---------------------------------------------------------------------------------------
  // request-start-game
  // ---------------------------------------------------------------------------------------

  /** `parseInt(totalRounds) || 5`: NaN and zero fall back to the default. */
  function RoundCount(totalRounds: string): (n: int)
    ensures n != 0
  {
    match ParseInt(totalRounds)
    case Some(v) => if v != 0 then v else DefaultRounds
    case None => DefaultRounds
  }

  /** The sender may start the game: registered, its room exists and it is the room's host. */
  predicate MayStart(t: Tables, id: SocketId)
  {
    id in t.users && t.users[id].room in t.rooms && t.rooms[t.users[id].room].host == Some(id)
  }

  /** request-start-game: the host sets the round count and starts round 1. */
  function RequestStart(t: Tables, id: SocketId, totalRounds: string, pool: seq<string>, qi: nat, pi: nat): (o: Outcome)
    ensures o.tables.users == t.users && o.tables.rooms.Keys == t.rooms.Keys
    ensures forall n :: n in t.rooms ==> o.tables.rooms[n].players == t.rooms[n].players
  {
    if !MayStart(t, id) then Outcome(t, [])
    else
      var name := t.users[id].room;
      var r := t.rooms[name].(maxRounds := Some(RoundCount(totalRounds)), currentRound := Some(1));
      var s := NewRound(r, t.users, pool, qi, pi, name);
      Outcome(t.(rooms := t.rooms[name := s.room]), s.events)
  }

  // ---------------------------------------------------------------------------------------
  // submit-answer
  // ---------------------------------------------------------------------------------------

  /**
    The order in which the in-place sort with a random comparator leaves `s`, selected by
    `picks`: each pick chooses which of the remaining elements comes next (a pick past the
    end chooses the first).
  */
  function Shuffled<T>(s: seq<T>, picks: seq<nat>): (r: seq<T>)
    ensures |r| == |s|
    decreases |s|
  {
    if s == [] then []
    else
      var i := if picks != [] && picks[0] < |s| then picks[0] else 0;
      [s[i]] + Shuffled(s[..i] + s[i + 1..], if picks != [] then picks[1..] else [])
  }

  /** The answer record submit-answer appends for socket `id` in room `r`. */
  function NewAnswer(r: RoomState, id: SocketId, u: User, text: string): Answer
  {
    Answer(|r.answers|, id, u.name, text, 0, 0, r.currentSubject == Some(id))
  }

  /** submit-answer: append the sender's answer; the last one due shuffles them and opens the voting. */
  function SubmitAnswer(t: Tables, id: SocketId, text: string, picks: seq<nat>): (o: Outcome)
    requires RoomOfSenderExists(t, id)
    ensures o.tables.users == t.users && o.tables.rooms.Keys == t.rooms.Keys
    ensures forall n :: n in t.rooms ==> o.tables.rooms[n].players == t.rooms[n].players
    ensures |o.events| == if id in t.users then 1 else 0
  {
    if id !in t.users then Outcome(t, [])
    else
      var u := t.users[id];
      var r := t.rooms[u.room];
      var answers := r.answers + [NewAnswer(r, id, u, text)];
      if |answers| == |r.players| then
        var shuffled := Shuffled(answers, picks);
        Outcome(t.(rooms := t.rooms[u.room := r.(answers := shuffled)]), [ToRoom(u.room, StartVoting(shuffled))])
      else
        Outcome(t.(rooms := t.rooms[u.room := r.(answers := answers)]), [ToSocket(id, WaitingForAnswers)])
  }

  // ---------------------------------------------------------------------------------------
  // submit-vote
  // ---------------------------------------------------------------------------------------

  /** `answers[index]` exists; None stands for null and for any key that is not an index. */
  predicate InRange(index: Option<int>, n: nat)
  {
    index.Some? && 0 <= index.value < n
  }

  /** Who gains the bonus for a truth vote on `a`: the voter if `a` is the truth, else its author if registered. */
  function Beneficiary(a: Answer, users: map<SocketId, User>, voter: SocketId): Option<SocketId>
  {
    if a.isCorrect then Some(voter) else if a.socketId in users then Some(a.socketId) else None
  }

  /** `users` with the bonus added to the score of `who`. */
  function Award(users: map<SocketId, User>, who: Option<SocketId>): map<SocketId, User>
    requires who.Some? ==> who.value in users
  {
    if who.Some? then users[who.value := users[who.value].(score := users[who.value].score + Bonus)]
    else users
  }

  /** The party a truth vote rewards, if any. */
  function TruthBeneficiary(answers: seq<Answer>, users: map<SocketId, User>, voter: SocketId, truthIndex: Option<int>): (b: Option<SocketId>)
    requires voter in users
    ensures b.Some? ==> b.value in users
  {
    if InRange(truthIndex, |answers|) then Beneficiary(answers[truthIndex.value], users, voter) else None
  }

  /** The answers after the truth vote: the chosen answer gets one more vote. */
  function CountTruth(answers: seq<Answer>, truthIndex: Option<int>): seq<Answer>
  {
    if InRange(truthIndex, |answers|) then
      var i := truthIndex.value;
      answers[i := answers[i].(votes := answers[i].votes + 1)]
    else answers
  }

  /** The answers after the funny vote: the chosen answer gets one more funny vote. */
  function CountFunny(answers: seq<Answer>, funnyIndex: Option<int>): seq<Answer>
  {
    if InRange(funnyIndex, |answers|) then
      var i := funnyIndex.value;
      answers[i := answers[i].(funnyVotes := answers[i].funnyVotes + 1)]
    else answers
  }

  /** The results broadcast: each answer's author, text, votes, funny votes and truth flag. */
  function Results(answers: seq<Answer>): seq<ResultEntry>
  {
    if answers == [] then []
    else
      var a := answers[0];
      [ResultEntry(a.author, a.text, a.votes, a.funnyVotes, a.isCorrect)] + Results(answers[1..])
  }

  /** `room.currentRound < room.maxRounds`; false while either is undefined. */
  predicate MoreRounds(r: RoomState)
  {
    r.currentRound.Some? && r.maxRounds.Some? && r.currentRound.value < r.maxRounds.value
  }

  /** The room after one vote, the results when the vote completes the round, and whether rounds remain. */
  datatype Ballot = Ballot(room: RoomState, results: Option<seq<ResultEntry>>, more: bool)

  /**
    The room part of submit-vote: count both votes, record the voter and, once every player
    has voted, clear the round and advance the round counter while rounds remain.
  */
  function CastVote(r: RoomState, truthIndex: Option<int>, funnyIndex: Option<int>, voter: string): (b: Ballot)
    ensures b.room.players == r.players && b.room.host == r.host && b.room.currentSubject == r.currentSubject
    ensures b.results.Some? <==> |r.votes| + 1 == |r.players|
  {
    var answers := CountFunny(CountTruth(r.answers, truthIndex), funnyIndex);
    var votes := r.votes + [voter];
    var more := MoreRounds(r);
    if |votes| == |r.players| then
      Ballot(r.(answers := [], votes := [],
                currentRound := if more then Some(r.currentRound.value + 1) else r.currentRound),
             Some(Results(answers)), more)
    else
      Ballot(r.(answers := answers, votes := votes), None, more)
  }

  /** submit-vote: award the truth bonus and count the ballot; the last one due shows the results. */
  function SubmitVote(t: Tables, id: SocketId, truthIndex: Option<int>, funnyIndex: Option<int>): (o: VoteOutcome)
    requires RoomOfSenderExists(t, id)
    ensures o.tables.users.Keys == t.users.Keys && o.tables.rooms.Keys == t.rooms.Keys
    ensures forall n :: n in t.rooms ==> o.tables.rooms[n].players == t.rooms[n].players
    ensures |o.events| == if id in t.users then 1 else 0
  {
    if id !in t.users then VoteOutcome(t, [], NoFollowup)
    else
      var u := t.users[id];
      var r := t.rooms[u.room];
      var users := Award(t.users, TruthBeneficiary(r.answers, t.users, id, truthIndex));
      var b := CastVote(r, truthIndex, funnyIndex, u.name);
      VoteOutcome(Tables(t.rooms[u.room := b.room], users),
                  if b.results.Some? then [ToRoom(u.room, ShowResults(b.results.value))] else [ToSocket(id, WaitingForVotes)],
                  if b.results.None? then NoFollowup else if b.more then NextRoundLater else GameOverLater)
  }

  /** The game-over timer: announce the end and set the round counter to 0. */
  function GameOver(r: RoomState, roomName: RoomName): (s: RoomStep)
    ensures s.room.currentRound == Some(0) && s.room.players == r.players
    ensures |s.events| == 1
  {
    RoomStep(r.(currentRound := Some(0)), [ToRoom(roomName, GameOverScreen)])
  }

  // ---------------------------------------------------------------------------------------
  // disconnect
  // ---------------------------------------------------------------------------------------

  /** `s.filter(y => y !== x)`. */
  function Without(s: seq<SocketId>, x: SocketId): (r: seq<SocketId>)
    ensures forall y :: y in r <==> y in s && y != x
    ensures |r| <= |s|
  {
    if s == [] then []
    else (if s[0] == x then [] else [s[0]]) + Without(s[1..], x)
  }

  /** disconnect: forget the sender, leave its room, and delete the room once it is empty. */
  function Disconnect(t: Tables, id: SocketId): (o: Outcome)
    ensures o.tables.users == t.users - {id}
    ensures o.tables.rooms.Keys <= t.rooms.Keys
  {
    if id !in t.users then Outcome(t, [])
    else
      var u := t.users[id];
      var users := t.users - {id};
      if u.room !in t.rooms then Outcome(Tables(t.rooms, users), [])
      else
        var r := t.rooms[u.room];
        var players := Without(r.players, id);
        var rooms := t.rooms[u.room := r.(players := players)];
        var listed := UpdatePlayerList(Tables(rooms, t.users), u.room);
        if players == [] then
          Outcome(Tables(rooms - {u.room}, users), listed + [ToRoom(u.room, LeftNotice(u.name))])
        else
          Outcome(Tables(rooms, users), listed)
  }
}
