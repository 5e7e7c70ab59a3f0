/** The message queue of mq.c: a singly linked tail queue. */
module MessageQueue {

  type Bytes = seq<bv8>

  /** A message; its data and size are fixed once it is created. */
  class Msg {
    const data: Bytes
    var next: Msg?

    constructor (data: Bytes)
      ensures this.data == data && next == null
    {
      this.data, next := data, null;
    }

    function Size(): nat {
      |data|
    }
  }

  class Queue {
    var first: Msg?
    var last: Msg?
    ghost var contents: seq<Msg>

    ghost predicate Valid()
      reads this, contents
    {
      && first == (if contents == [] then null else contents[0])
      && last == (if contents == [] then null else contents[|contents| - 1])
      && (forall i, j | 0 <= i < j < |contents| :: contents[i] != contents[j])
      && (forall i | 0 <= i < |contents| - 1 :: contents[i].next == contents[i + 1])
      && (contents != [] ==> contents[|contents| - 1].next == null)
    }

    /** mq_init. */
    constructor ()
      ensures Valid() && contents == []
    {
      first, last, contents := null, null, [];
    }

    /** mq_isempty. */
    predicate IsEmpty()
      requires Valid()
      reads this, contents
      ensures IsEmpty() <==> contents == []
    {
      first == null
    }

    /** mq_putmsg: append at the tail. */
    method Put(msg: Msg)
      requires Valid() && msg !in contents
      modifies this, contents, msg
      ensures Valid() && contents == old(contents) + [msg]
    {
      msg.next := null;
      if last == null {
        first := msg;
      } else {
        last.next := msg;
      }
      last := msg;
      contents := contents + [msg];
    }

    /** mq_getmsg: take the head, or null from an empty queue. */
    method Get() returns (msg: Msg?)
      requires Valid()
      modifies this
      ensures Valid()
      ensures old(contents) == [] ==> msg == null && contents == []
      ensures old(contents) != [] ==> msg == old(contents)[0] && contents == old(contents)[1..]
    {
      msg := first;
      if first != null {
        first := first.next;
        if first == null {
          last := null;
        }
        contents := contents[1..];
      }
    }
  }
}
