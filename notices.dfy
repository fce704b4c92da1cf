/** The Notification table (accounts/models.py): user-facing messages the ledger and the tier
    engine create, each with a read flag. */
module Notices {

  /** What a notification announces; the message text is a rendering of these fields. */
  datatype Notice =
    | AddedToCart(voucherTitle: string)
    | Redeemed(voucherTitle: string, points: int)
    | CheckedOut(points: int)
    | TierUpgraded(tierName: string)

  datatype Notification = Notification(notice: Notice, read: bool)

  /** The same notifications, each marked read. */
  function MarkedRead(ms: seq<Notification>): (r: seq<Notification>)
    ensures |r| == |ms|
    ensures forall i :: 0 <= i < |ms| ==> r[i] == ms[i].(read := true)
  {
    if ms == [] then [] else [ms[0].(read := true)] + MarkedRead(ms[1..])
  }

  /** One user's notifications, oldest first. */
  class Inbox {
    var messages: seq<Notification>

    constructor ()
      ensures messages == []
    {
      messages := [];
    }

    /** Notification.objects.create: a new, unread notification. */
    method Create(n: Notice)
      modifies this
      ensures messages == old(messages) + [Notification(n, false)]
    {
      messages := messages + [Notification(n, false)];
    }

    /** mark_notifications_read: every unread notification of the user becomes read; nothing else changes. */
    method MarkAllRead()
      modifies this
      ensures |messages| == |old(messages)|
      ensures forall i :: 0 <= i < |messages| ==>
        messages[i].read && messages[i].notice == old(messages)[i].notice
    {
      messages := MarkedRead(messages);
    }
  }
}
