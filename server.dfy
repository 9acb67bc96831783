/**
  The socket handlers of the game server as they run: `roomData` maps room names to room
  objects whose fields the handlers update in place, and `users` maps socket ids to user
  records. Each handler is proved to leave the tables exactly as the corresponding function
  of module Game describes, and to keep the consistency `Game.Inv`.

  A timer that a completed vote starts holds the room OBJECT, as the server's closures do:
  when it fires it updates that object even if its room has meanwhile been deleted (and a
  new room created under the same name), in which case the tables do not change. A pending
  timer is never cancelled: its messages still go to the room name it captured, which by
  then may belong to a new room.
*/
module Server {
  import opened Wrappers
  import opened Game
  import GameProperties

  /** A room record: `{ players, answers, votes, host, currentSubject, maxRounds, currentRound }`. */
  class Room {
    var players: seq<SocketId>
    var answers: seq<Answer>
    var votes: seq<string>
    var host: Option<SocketId>
    var currentSubject: Option<SocketId>
    var maxRounds: Option<int>
    var currentRound: Option<int>

    /** A fresh room: no players, answers, votes or host, the rest undefined. */
    constructor ()
      ensures State() == NewRoom
    {
      players, answers, votes := [], [], [];
      host, currentSubject := None, None;
      maxRounds, currentRound := None, None;
    }

    /** The room's fields as a value. */
    function State(): RoomState
      reads this
    {
      RoomState(players, answers, votes, host, currentSubject, maxRounds, currentRound)
    }

    /**
      startNewRound: pick question `qi` and player `pi`, substitute the subject's name, reset
      the round and announce it.
    */
    method StartNewRound(users: map<SocketId, User>, questions: seq<string>, qi: nat, pi: nat, roomName: RoomName)
      returns (events: seq<Event>)
      modifies this
      ensures State() == NewRound(old(State()), users, questions, qi, pi, roomName).room
      ensures events == NewRound(old(State()), users, questions, qi, pi, roomName).events
    {
      var question := QuestionAt(questions, qi);
      var text := question;
      var subjectId: Option<SocketId> := None;
      if question.Some? && question.value != "" && Js.Contains(question.value, PlayerTag) {
        var playerIds := players;
        if |playerIds| > 0 {
          // an index past the end reads `undefined`, which is never registered
          if pi < |playerIds| && playerIds[pi] in users {
            var randomPlayerName := users[playerIds[pi]].name;
            text := Some(Js.JsReplace(question.value, PlayerTag, randomPlayerName));
            subjectId := Some(playerIds[pi]);
          }
        }
      }
      currentSubject := subjectId;
      answers := [];
      votes := [];
      events := [ToRoom(roomName, StartingRound(currentRound, maxRounds)), ToRoom(roomName, Question(text))];
    }

    /**
      The room part of join-room: list `id` unless it is already listed, and make it host when
      the room has none or `id` is now its only player.
    */
    method AddPlayer(id: SocketId) returns (takesHost: bool)
      modifies this
      ensures takesHost == TakesHost(old(State()), WithPlayer(old(players), id))
      ensures State() == old(State()).(players := WithPlayer(old(players), id),
                                       host := if takesHost then Some(id) else old(host))
    {
      if id !in players {
        players := players + [id];
      }
      takesHost := host.None? || |players| == 1;
      if takesHost {
        host := Some(id);
      }
    }

    /**
      The room part of submit-vote: count the truth vote and the funny vote on the answers they
      index, record the voter, and when every player has voted clear the round (advancing the
      round counter while rounds remain) and return the results.
    */
    method RecordVote(truthIndex: Option<int>, funnyIndex: Option<int>, voter: string)
      returns (results: Option<seq<ResultEntry>>, more: bool)
      modifies this
      ensures Ballot(State(), results, more) == CastVote(old(State()), truthIndex, funnyIndex, voter)
    {
      ghost var before := State();
      if InRange(truthIndex, |answers|) {
        var i := truthIndex.value;
        answers := answers[i := answers[i].(votes := answers[i].votes + 1)];
      }
      assert answers == CountTruth(before.answers, truthIndex);
      if InRange(funnyIndex, |answers|) {
        var j := funnyIndex.value;
        answers := answers[j := answers[j].(funnyVotes := answers[j].funnyVotes + 1)];
      }
      assert answers == CountFunny(CountTruth(before.answers, truthIndex), funnyIndex);
      votes := votes + [voter];
      more := currentRound.Some? && maxRounds.Some? && currentRound.value < maxRounds.value;
      if |votes| == |players| {
        results := Some(Results(answers));
        if more {
          currentRound := Some(currentRound.value + 1);
        }
        answers := [];
        votes := [];
      } else {
        results := None;
      }
    }

    /** The game-over timer: announce the end and set the round counter to 0. */
    method EndGame(roomName: RoomName) returns (events: seq<Event>)
      modifies this
      ensures State() == GameOver(old(State()), roomName).room
      ensures events == GameOver(old(State()), roomName).events
    {
      events := [ToRoom(roomName, GameOverScreen)];
      currentRound := Some(0);
    }
  }

  /** A pending `setTimeout` continuation and the room object it captured. */
  datatype Timer =
    | NextRoundTimer(room: Room, roomName: RoomName)
    | GameOverTimer(room: Room, roomName: RoomName)

  class GameServer {
    /** The question pool, loaded once at start-up. */
    const questions: seq<string>
    var roomData: map<RoomName, Room>
    var users: map<SocketId, User>

    /** Different room names never share a room object. */
    ghost predicate DistinctRooms()
      reads this`roomData
    {
      forall a, b :: a in roomData && b in roomData && a != b ==> roomData[a] != roomData[b]
    }

    /** The rooms table as a value. */
    function Rooms(): map<RoomName, RoomState>
      reads this`roomData, roomData.Values
    {
      map n | n in roomData :: roomData[n].State()
    }

    /** The two tables as values. */
    function View(): Tables
      reads this, roomData.Values
    {
      Tables(Rooms(), users)
    }

    ghost predicate Valid()
      reads this, roomData.Values
    {
      DistinctRooms() && Inv(View())
    }

    constructor (questions: seq<string>)
      ensures Valid() && View() == InitialTables && this.questions == questions
    {
      this.questions := questions;
      roomData := map[];
      users := map[];
      new;
      assert View().rooms == map[];
    }

    /** updatePlayerList: send the room the names of its registered players. Changes nothing. */
    method UpdatePlayerList(room: RoomName) returns (events: seq<Event>)
      ensures events == Game.UpdatePlayerList(View(), room)
    {
      if room !in roomData {
        return [];
      }
      var currentPlayers := roomData[room].players;
      var names := PlayerNames(currentPlayers, users);
      events := [ToRoom(room, PlayerList(names))];
    }

    /** join-room, keeping the consistency. */
    method OnJoinRoom(id: SocketId, room: RoomName, name: string) returns (events: seq<Event>)
      requires Valid()
      modifies this, roomData.Values
      ensures Valid()
      ensures View() == Game.JoinRoom(old(View()), id, room, name).tables
      ensures events == Game.JoinRoom(old(View()), id, room, name).events
      ensures room in roomData && roomData == old(roomData)[room := roomData[room]]
      ensures room in old(roomData) ==> roomData[room] == old(roomData[room])
    {
      ghost var before := View();
      events := ApplyJoin(id, room, name);
      GameProperties.JoinKeepsInv(before, id, room, name);
    }

    /**
      join-room: register the user, create the room when it is new, list the player, make it
      host when the room has none or it is now the only player, announce the arrival and the
      player count, and broadcast the player list. Existing rooms keep their objects.
    */
    method ApplyJoin(id: SocketId, room: RoomName, name: string) returns (events: seq<Event>)
      requires DistinctRooms()
      modifies this, roomData.Values
      ensures DistinctRooms()
      ensures View() == Game.JoinRoom(old(View()), id, room, name).tables
      ensures events == Game.JoinRoom(old(View()), id, room, name).events
      ensures room in roomData && roomData == old(roomData)[room := roomData[room]]
      ensures room in old(roomData) ==> roomData[room] == old(roomData[room])
    {
      ghost var before := View();
      ghost var expected := Game.JoinRoom(before, id, room, name);
      users := users[id := User(name, room, 0)];
      var r := RoomNamed(room);
      ghost var data := roomData;
      var takesHost := r.AddPlayer(id);
      events := if takesHost then [ToSocket(id, IsHost)] else [];
      var count := |r.players|;
      events := events + [ToRoom(room, JoinedNotice(name)), ToRoom(room, WaitingForPlayers(count))];
      RoomsAfterPut(this, before.rooms, room, r);
      assert View() == expected.tables;
      var listed := UpdatePlayerList(room);
      assert listed == Game.UpdatePlayerList(expected.tables, room);
      events := events + listed;
      assert roomData == data;
    }

    /** The room object stored under `room`, created empty when there is none. */
    method RoomNamed(room: RoomName) returns (r: Room)
      requires DistinctRooms()
      modifies this`roomData
      ensures DistinctRooms()
      ensures roomData == old(roomData)[room := r]
      ensures room in old(roomData) ==> r == old(roomData[room])
      ensures room !in old(roomData) ==> fresh(r) && r.State() == NewRoom
    {
      if room !in roomData {
        r := new Room();
        roomData := roomData[room := r];
      } else {
        r := roomData[room];
      }
    }

    /** request-start-game, keeping the consistency. */
    method OnRequestStartGame(id: SocketId, totalRounds: string, qi: nat, pi: nat) returns (events: seq<Event>)
      requires Valid()
      modifies roomData.Values
      ensures Valid()
      ensures View() == RequestStart(old(View()), id, totalRounds, questions, qi, pi).tables
      ensures events == RequestStart(old(View()), id, totalRounds, questions, qi, pi).events
    {
      ghost var before := View();
      events := ApplyRequestStart(id, totalRounds, qi, pi);
      GameProperties.StartKeepsInv(before, id, totalRounds, questions, qi, pi);
    }

    /**
      request-start-game: only the host of the sender's room starts it, setting the round count
      and round 1 and starting the first round.
    */
    method ApplyRequestStart(id: SocketId, totalRounds: string, qi: nat, pi: nat) returns (events: seq<Event>)
      requires DistinctRooms()
      modifies roomData.Values
      ensures DistinctRooms()
      ensures View() == RequestStart(old(View()), id, totalRounds, questions, qi, pi).tables
      ensures events == RequestStart(old(View()), id, totalRounds, questions, qi, pi).events
    {
      ghost var before := View();
      if id !in users {
        return [];
      }
      var user := users[id];
      if user.room in roomData && roomData[user.room].host == Some(id) {
        var room := roomData[user.room];
        room.maxRounds := Some(RoundCount(totalRounds));
        room.currentRound := Some(1);
        events := room.StartNewRound(users, questions, qi, pi, user.room);
        RoomsAfterPut(this, before.rooms, user.room, room);
      } else {
        events := [];
      }
    }

    /** submit-answer, keeping the consistency. */
    method OnSubmitAnswer(id: SocketId, answerText: string, picks: seq<nat>) returns (events: seq<Event>)
      requires Valid()
      modifies roomData.Values
      ensures Valid()
      ensures RoomOfSenderExists(old(View()), id)
      ensures View() == SubmitAnswer(old(View()), id, answerText, picks).tables
      ensures events == SubmitAnswer(old(View()), id, answerText, picks).events
    {
      ghost var before := View();
      GameProperties.InvRoomOfSenderExists(before, id);
      events := ApplySubmitAnswer(id, answerText, picks);
      GameProperties.AnswerKeepsInv(before, id, answerText, picks);
    }

    /**
      submit-answer: append the sender's answer (the truth when the sender is the round's
      subject); once every player has answered, shuffle the answers and start the voting.
    */
    method ApplySubmitAnswer(id: SocketId, answerText: string, picks: seq<nat>) returns (events: seq<Event>)
      requires DistinctRooms() && RoomOfSenderExists(View(), id)
      modifies roomData.Values
      ensures DistinctRooms()
      ensures View() == SubmitAnswer(old(View()), id, answerText, picks).tables
      ensures events == SubmitAnswer(old(View()), id, answerText, picks).events
    {
      ghost var before := View();
      if id !in users {
        return [];
      }
      var user := users[id];
      var room := roomData[user.room];
      var isTruth := room.currentSubject == Some(id);
      room.answers := room.answers + [Answer(|room.answers|, id, user.name, answerText, 0, 0, isTruth)];
      if |room.answers| == |room.players| {
        room.answers := Shuffled(room.answers, picks);
        events := [ToRoom(user.room, StartVoting(room.answers))];
      } else {
        events := [ToSocket(id, WaitingForAnswers)];
      }
      RoomsAfterPut(this, before.rooms, user.room, room);
    }

    /**
      submit-vote, keeping the consistency. When the vote completes the round, the timer it
      starts is returned with the room object it holds.
    */
    method OnSubmitVote(id: SocketId, truthIndex: Option<int>, funnyIndex: Option<int>)
      returns (events: seq<Event>, timer: Option<Timer>)
      requires Valid()
      modifies this, roomData.Values
      ensures Valid()
      ensures RoomOfSenderExists(old(View()), id)
      ensures View() == SubmitVote(old(View()), id, truthIndex, funnyIndex).tables
      ensures events == SubmitVote(old(View()), id, truthIndex, funnyIndex).events
      ensures timer.None? <==> SubmitVote(old(View()), id, truthIndex, funnyIndex).followup == NoFollowup
      ensures timer.Some? ==>
        && id in old(users)
        && timer.value.roomName == old(users)[id].room
        && timer.value.room == old(roomData)[old(users)[id].room]
        && (timer.value.NextRoundTimer? <==> SubmitVote(old(View()), id, truthIndex, funnyIndex).followup == NextRoundLater)
      ensures roomData == old(roomData)
    {
      ghost var before := View();
      GameProperties.InvRoomOfSenderExists(before, id);
      events, timer := ApplySubmitVote(id, truthIndex, funnyIndex);
      GameProperties.VoteKeepsInv(before, id, truthIndex, funnyIndex);
    }

    /**
      submit-vote: award the truth bonus (to the voter for the true answer, else to the chosen
      answer's author), count the votes, and when every player has voted show the results and
      start the next-round or game-over timer.
    */
    method ApplySubmitVote(id: SocketId, truthIndex: Option<int>, funnyIndex: Option<int>)
      returns (events: seq<Event>, timer: Option<Timer>)
      requires DistinctRooms() && RoomOfSenderExists(View(), id)
      modifies this, roomData.Values
      ensures DistinctRooms()
      ensures View() == SubmitVote(old(View()), id, truthIndex, funnyIndex).tables
      ensures events == SubmitVote(old(View()), id, truthIndex, funnyIndex).events
      ensures timer.None? <==> SubmitVote(old(View()), id, truthIndex, funnyIndex).followup == NoFollowup
      ensures timer.Some? ==>
        && id in old(users)
        && timer.value.roomName == old(users)[id].room
        && timer.value.room == old(roomData)[old(users)[id].room]
        && (timer.value.NextRoundTimer? <==> SubmitVote(old(View()), id, truthIndex, funnyIndex).followup == NextRoundLater)
      ensures roomData == old(roomData)
    {
      ghost var before := View();
      if id !in users {
        return [], None;
      }
      var user := users[id];
      var room := roomData[user.room];
      AwardTruth(id, room.answers, truthIndex);
      var results, more := room.RecordVote(truthIndex, funnyIndex, user.name);
      if results.Some? {
        events := [ToRoom(user.room, ShowResults(results.value))];
        timer := Some(if more then NextRoundTimer(room, user.room) else GameOverTimer(room, user.room));
      } else {
        events := [ToSocket(id, WaitingForVotes)];
        timer := None;
      }
      RoomsAfterPut(this, before.rooms, user.room, room);
    }

    /**
      The scoring part of submit-vote: a truth vote on the true answer earns the voter the
      bonus, one on another answer earns that answer's author the bonus, if still registered.
    */
    method AwardTruth(id: SocketId, answers: seq<Answer>, truthIndex: Option<int>)
      requires id in users
      modifies this`users
      ensures users == Award(old(users), TruthBeneficiary(answers, old(users), id, truthIndex))
    {
      if InRange(truthIndex, |answers|) {
        var truthAnswer := answers[truthIndex.value];
        if truthAnswer.isCorrect {
          users := users[id := users[id].(score := users[id].score + Bonus)];
        } else if truthAnswer.socketId in users {
          var author := truthAnswer.socketId;
          users := users[author := users[author].(score := users[author].score + Bonus)];
        }
      }
    }

    /**
      The continuation of a timer a completed vote started: the next round (question `qi`,
      player `pi`) or the game-over step, applied to the room object the timer holds.
    */
    method FireTimer(timer: Timer, qi: nat, pi: nat) returns (events: seq<Event>)
      requires Valid()
      modifies timer.room
      ensures Valid()
      ensures roomData == old(roomData) && users == old(users)
      ensures timer.NextRoundTimer? ==>
        var s := NewRound(old(timer.room.State()), users, questions, qi, pi, timer.roomName);
        timer.room.State() == s.room && events == s.events
      ensures timer.GameOverTimer? ==>
        var s := GameOver(old(timer.room.State()), timer.roomName);
        timer.room.State() == s.room && events == s.events
    {
      ghost var before := View();
      var room := timer.room;
      if timer.NextRoundTimer? {
        events := room.StartNewRound(users, questions, qi, pi, timer.roomName);
      } else {
        events := room.EndGame(timer.roomName);
      }
      if n :| n in roomData && roomData[n] == room {
        RoomsAfterPut(this, before.rooms, n, room);
        GameProperties.InvSamePlayers(before, n, room.State());
      } else {
        assert View() == before by {
          forall m | m in roomData ensures roomData[m].State() == before.rooms[m] {
            assert roomData[m] != room;
          }
        }
      }
    }

    /** disconnect, keeping the consistency. */
    method OnDisconnect(id: SocketId) returns (events: seq<Event>)
      requires Valid()
      modifies this, roomData.Values
      ensures Valid()
      ensures View() == Disconnect(old(View()), id).tables
      ensures events == Disconnect(old(View()), id).events
      ensures forall n :: n in roomData ==> n in old(roomData) && roomData[n] == old(roomData[n])
    {
      ghost var before := View();
      events := ApplyDisconnect(id);
      GameProperties.DisconnectKeepsInv(before, id);
    }

    /**
      disconnect: take the sender out of its room (when the room exists) and unregister it.
    */
    method ApplyDisconnect(id: SocketId) returns (events: seq<Event>)
      requires DistinctRooms()
      modifies this, roomData.Values
      ensures DistinctRooms()
      ensures View() == Disconnect(old(View()), id).tables
      ensures events == Disconnect(old(View()), id).events
      ensures forall n :: n in roomData ==> n in old(roomData) && roomData[n] == old(roomData[n])
    {
      events := [];
      if id in users {
        var user := users[id];
        if user.room in roomData {
          events := LeaveRoom(id, user.room, user.name);
        }
        users := users - {id};
      }
    }

    /**
      The room part of disconnect: drop `id` from the players of room `n`, broadcast the
      player list, and delete the room, announcing the departure, once it is empty.
    */
    method LeaveRoom(id: SocketId, n: RoomName, name: string) returns (events: seq<Event>)
      requires DistinctRooms() && n in roomData
      modifies this, roomData.Values
      ensures DistinctRooms() && users == old(users)
      ensures
        var r := old(View()).rooms[n];
        var rooms := old(View()).rooms[n := r.(players := Without(r.players, id))];
        && events == Game.UpdatePlayerList(Tables(rooms, users), n)
                     + (if rooms[n].players == [] then [ToRoom(n, LeftNotice(name))] else [])
        && View().rooms == if rooms[n].players == [] then rooms - {n} else rooms
      ensures roomData == old(roomData) || roomData == old(roomData) - {n}
    {
      ghost var before := View();
      var room := roomData[n];
      room.players := Without(room.players, id);
      RoomsAfterPut(this, before.rooms, n, room);
      events := UpdatePlayerList(n);
      // if the room is empty, delete it
      if |room.players| == 0 {
        events := events + [ToRoom(n, LeftNotice(name))];
        roomData := roomData - {n};
        RoomsAfterDelete(this, before.rooms, n, room);
      }
    }

    /**
      After a handler has stored room object `r` under `n` (the object already there, or a fresh
      one) and changed no other stored room object, the rooms table is the old one with that
      room's record replaced.
    */
    static twostate lemma RoomsAfterPut(s: GameServer, new before: map<RoomName, RoomState>, new n: RoomName, new r: Room)
      requires old(s.DistinctRooms()) && before == old(s.Rooms())
      requires s.roomData == old(s.roomData)[n := r]
      requires n in old(s.roomData) ==> old(s.roomData)[n] == r
      requires n !in old(s.roomData) ==> fresh(r)
      requires forall m :: m in s.roomData && m != n ==> unchanged(s.roomData[m])
      ensures s.DistinctRooms()
      ensures s.Rooms() == before[n := r.State()]
    {
      forall m | m in s.roomData && m != n
        ensures s.roomData[m].State() == before[m]
      {
        assert s.roomData[m] != r;
      }
    }

    /** After a handler has removed the room `r` stored under `n` and changed no other stored room object. */
    static twostate lemma RoomsAfterDelete(s: GameServer, new before: map<RoomName, RoomState>, new n: RoomName, new r: Room)
      requires old(s.DistinctRooms()) && before == old(s.Rooms())
      requires n in old(s.roomData) && old(s.roomData)[n] == r
      requires s.roomData == old(s.roomData) - {n}
      requires forall m :: m in s.roomData ==> unchanged(s.roomData[m])
      ensures s.DistinctRooms()
      ensures s.Rooms() == before[n := r.State()] - {n}
    {
    }
  }
}
