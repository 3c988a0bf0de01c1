/** Request sequences against a fresh server, with the statuses and the
    listing the message endpoint returns at the end. */
module Scenarios {
  import opened Chat

  /** Creating a room answers 200; creating it again answers 200 too and
      changes nothing. */
  method CreateTwice(room: Field, stamp: string, stamp': string)
    returns (first: Status, second: Status, msgs: seq<Message>)
    ensures first == Ok && second == Ok
    ensures msgs == [CreatedNotice(stamp)]
  {
    var s := new ChatServer();
    first := s.CreateRoom(room, stamp);
    second := s.CreateRoom(room, stamp');
    msgs := s.Messages(room);
  }

  /** Requests naming a room nobody created are refused and list nothing. */
  method UnknownRoom(room: string, user: string, text: string, now: int, stamp: string)
    returns (join: Status, send: Status, msgs: seq<Message>)
    ensures join == BadRequest && send == BadRequest && msgs == []
  {
    var s := new ChatServer();
    join := s.Join(Some(room), Some(user), now, stamp);
    send := s.Send(Some(room), Some(user), Some(text), now, stamp);
    msgs := s.Messages(Some(room));
  }
}
