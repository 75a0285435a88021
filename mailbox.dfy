/**
 The pigeonhole mailbox of masdcop/agent.py: one slot per recipient, shared by
 every agent, where a send overwrites any unread entry for its recipient.
 */
module Mailbox {
  import opened Values

  /** A dictionary lookup: the stored envelope, or a KeyError. */
  function Lookup<L, V>(slots: map<L, Payload<L, V>>, key: L): (r: Result<Payload<L, V>>)
    ensures r.Ok? <==> key in slots
    ensures r.Ok? ==> r.value == slots[key]
    ensures r.Err? ==> r.fault == MailboxEmpty
  {
    if key in slots then Ok(slots[key]) else Err(MailboxEmpty)
  }

  /** Storing under one key leaves every other slot as it was and makes the
      stored envelope the one a lookup of that key returns. */
  lemma {:induction false} StoreThenLookup<L, V>(slots: map<L, Payload<L, V>>, sender: L, recipient: L,
                                                 message: Message<L, V>, key: L)
    ensures Lookup(slots[recipient := Payload(sender, message)], key)
         == if key == recipient then Ok(Payload(sender, message)) else Lookup(slots, key)
  {
  }

  /** `receive` as the agent calls it (masdcop/agent.py:99): a static method
      with parameters `(cls, key)` called with the key alone, so Python raises
      a TypeError for the missing argument whatever is stored. Called with
      both arguments it would still read `cls.Payload[key]`, a subscript of
      the namedtuple class rather than of the table `_divs`, so no stored
      envelope could be returned either way. */
  function ReceiveAsWritten<L, V>(slots: map<L, Payload<L, V>>, key: L): (r: Result<Payload<L, V>>)
    ensures r == Err(TypeError)
  {
    Err(TypeError)
  }

  /** `send` as it is called: a static method with four parameters called with
      three arguments, so Python raises a TypeError before storing anything. */
  function SendAsCalled<L, V>(slots: map<L, Payload<L, V>>, sender: L, recipient: L,
                              message: Message<L, V>): (r: Result<map<L, Payload<L, V>>>)
    ensures r == Err(TypeError)
  {
    Err(TypeError)
  }

  /** The round trip the mailbox is meant to provide fails as written: a send
      cannot store anything, and a receive returns no envelope even when one is
      stored. */
  lemma AsWrittenRoundTripFails<L, V>(slots: map<L, Payload<L, V>>, sender: L, recipient: L,
                                      message: Message<L, V>)
    ensures SendAsCalled(slots, sender, recipient, message).Err?
    ensures ReceiveAsWritten(slots[recipient := Payload(sender, message)], recipient)
         != Ok(Payload(sender, message))
    ensures Lookup(slots[recipient := Payload(sender, message)], recipient)
         == Ok(Payload(sender, message))
  {
  }

  class PigeonHole<L(==), V> {
    var slots: map<L, Payload<L, V>>

    constructor ()
      ensures slots == map[]
    {
      slots := map[];
    }

    /** The stored envelope for `key`, as `cls._divs[key]` would return it. */
    function Receive(key: L): (r: Result<Payload<L, V>>)
      reads this
      ensures r.Ok? <==> key in slots
      ensures r.Ok? ==> r.value == slots[key]
      ensures r.Err? ==> r.fault == MailboxEmpty
    {
      Lookup(slots, key)
    }

    method Send(sender: L, recipient: L, message: Message<L, V>)
      modifies this
      ensures slots == old(slots)[recipient := Payload(sender, message)]
      ensures Receive(recipient) == Ok(Payload(sender, message))
      ensures forall k :: k != recipient ==> Lookup(slots, k) == Lookup(old(slots), k)
    {
      slots := slots[recipient := Payload(sender, message)];
    }
  }
}
