/** The pipe that wakes the event thread: both ends are non-blocking, and every write and every
  read moves one message of four bytes. */
module Pipes {

  /** A pipe gives the space of what was read free a page at a time, as the pipes of Linux do. It
      has room for `room` messages, a page holds `page` of them, and `skip` messages of the first
      page have been read. With pages of one message it is a plain bounded queue. */
  datatype Pipe = Pipe(room: nat, page: nat, skip: nat, unread: nat)

  function Empty(room: nat, page: nat): Pipe {
    Pipe(room, page, 0, 0)
  }

  predicate Sound(p: Pipe) {
    && 0 < p.page <= p.room
    && p.skip < p.page && (p.unread == 0 ==> p.skip == 0)
    && p.skip + p.unread <= p.room
  }

  /** A write fails. */
  predicate Full(p: Pipe) {
    p.skip + p.unread >= p.room
  }

  function Written(p: Pipe): (r: Pipe)
    ensures Sound(p) ==> Sound(r)
  {
    if Full(p) then p else p.(unread := p.unread + 1)
  }

  /** A read from an empty pipe fails. The page that is read up is free, and so is the last one
      when nothing is left in it. */
  function Read(p: Pipe): (r: Pipe)
    ensures Sound(p) ==> Sound(r)
  {
    if p.unread <= 1 then p.(skip := 0, unread := 0)
    else p.(skip := if p.skip + 1 >= p.page then 0 else p.skip + 1, unread := p.unread - 1)
  }
}
