/** The notification ledger (`NotificationService`): per-user messages that
    are stored unread and are only ever flipped to read. Times are whole
    minutes. */
module Notifications {
  import opened Common
  import opened Text
  import opened Queries

  datatype Notification = Notification(id: int, userId: int, title: string, sentDate: int, isRead: bool)

  function NotificationKey(n: Notification): int { n.id }

  predicate UnreadFor(n: Notification, userId: int) {
    n.userId == userId && !n.isRead
  }

  /** The rows a listing shows: the user's, and only unread ones unless
      `includeRead`. */
  function Shown(userId: int, includeRead: bool): Notification -> bool {
    (n: Notification) => n.userId == userId && (includeRead || !n.isRead)
  }

  /** Newest first (`OrderByDescending(n => n.SentDate)`). */
  predicate SentNoEarlier(a: Notification, b: Notification) {
    a.sentDate >= b.sentDate
  }

  lemma SentNoEarlierIsPreorder()
    ensures Total(SentNoEarlier) && Transitive(SentNoEarlier)
  {
  }

  /** `GetNotificationsAsync`: exactly the user's notifications (unread only
      unless `includeRead`), newest first. */
  function Listing(ns: seq<Notification>, userId: int, includeRead: bool): (r: seq<Notification>)
    ensures forall x :: multiset(r)[x] ==
              if x.userId == userId && (includeRead || !x.isRead) then multiset(ns)[x] else 0
    ensures forall i :: 0 <= i < |r| ==> r[i].userId == userId && (includeRead || !r[i].isRead)
    ensures SortedBy(r, SentNoEarlier)
  {
    SentNoEarlierIsPreorder();
    FilterSorted(ns, Shown(userId, includeRead), SentNoEarlier)
  }

  /** `GetUnreadNotificationCountAsync`: how many of the user's
      notifications are unread. */
  function UnreadCount(ns: seq<Notification>, userId: int): nat
  {
    if ns == [] then 0
    else (if UnreadFor(ns[0], userId) then 1 else 0) + UnreadCount(ns[1..], userId)
  }

  lemma {:induction false} UnreadCountIsFilterLength(ns: seq<Notification>, userId: int)
    ensures UnreadCount(ns, userId) == |Filter(ns, Shown(userId, false))|
  {
    if ns != [] {
      UnreadCountIsFilterLength(ns[1..], userId);
    }
  }

  /** The unread count is the length of the unread listing. */
  lemma UnreadCountIsListingLength(ns: seq<Notification>, userId: int)
    ensures UnreadCount(ns, userId) == |Listing(ns, userId, false)|
  {
    UnreadCountIsFilterLength(ns, userId);
    SentNoEarlierIsPreorder();
    assert |multiset(Listing(ns, userId, false))| == |multiset(Filter(ns, Shown(userId, false)))|;
  }

  /** Appending a notification raises its user's unread count by one when
      it is unread and leaves every other count alone. */
  lemma {:induction false} UnreadCountAppend(ns: seq<Notification>, n: Notification, userId: int)
    ensures UnreadCount(ns + [n], userId) == UnreadCount(ns, userId) + (if UnreadFor(n, userId) then 1 else 0)
  {
    if ns == [] {
      assert [n][1..] == [];
    } else {
      assert (ns + [n])[1..] == ns[1..] + [n];
      UnreadCountAppend(ns[1..], n, userId);
    }
  }

  /** Marking one unread notification read lowers its user's unread count by
      one and leaves every other count alone. */
  lemma {:induction false} UnreadCountMarkOne(ns: seq<Notification>, k: nat, userId: int)
    requires k < |ns|
    ensures UnreadCount(ns[k := ns[k].(isRead := true)], userId)
            == UnreadCount(ns, userId) - (if UnreadFor(ns[k], userId) then 1 else 0)
  {
    if k > 0 {
      assert ns[k := ns[k].(isRead := true)][1..] == ns[1..][k - 1 := ns[k].(isRead := true)];
      UnreadCountMarkOne(ns[1..], k - 1, userId);
    }
  }

  /** What `MarkAllAsReadAsync` does to one row. */
  function ReadFor(n: Notification, userId: int): Notification {
    if UnreadFor(n, userId) then n.(isRead := true) else n
  }

  /** Every unread notification of the user flipped to read, every other row
      kept. */
  function ReadAll(ns: seq<Notification>, userId: int): (r: seq<Notification>)
    ensures |r| == |ns|
    ensures forall i :: 0 <= i < |ns| ==> r[i] == ReadFor(ns[i], userId)
  {
    if ns == [] then [] else [ReadFor(ns[0], userId)] + ReadAll(ns[1..], userId)
  }

  /** After marking all read the user has nothing unread. */
  lemma {:induction false} ReadAllLeavesNothingUnread(ns: seq<Notification>, userId: int)
    ensures UnreadCount(ReadAll(ns, userId), userId) == 0
  {
    if ns != [] {
      assert ReadAll(ns, userId)[1..] == ReadAll(ns[1..], userId);
      ReadAllLeavesNothingUnread(ns[1..], userId);
    }
  }

  /** Other users' notifications, and their unread counts, are untouched. */
  lemma {:induction false} ReadAllKeepsOthers(ns: seq<Notification>, userId: int, other: int)
    requires other != userId
    ensures forall i :: 0 <= i < |ns| && ns[i].userId != userId ==> ReadAll(ns, userId)[i] == ns[i]
    ensures UnreadCount(ReadAll(ns, userId), other) == UnreadCount(ns, other)
  {
    if ns != [] {
      assert ReadAll(ns, userId)[1..] == ReadAll(ns[1..], userId);
      ReadAllKeepsOthers(ns[1..], userId, other);
    }
  }

  /** With nothing unread, marking all read changes nothing; in particular
      marking all read twice is marking once. */
  lemma {:induction false} ReadAllWithNothingUnread(ns: seq<Notification>, userId: int)
    requires UnreadCount(ns, userId) == 0
    ensures ReadAll(ns, userId) == ns
  {
    if ns != [] {
      ReadAllWithNothingUnread(ns[1..], userId);
      assert ReadAll(ns, userId)[1..] == ReadAll(ns[1..], userId);
    }
  }

  lemma ReadAllIdempotent(ns: seq<Notification>, userId: int)
    ensures ReadAll(ReadAll(ns, userId), userId) == ReadAll(ns, userId)
  {
    ReadAllLeavesNothingUnread(ns, userId);
    ReadAllWithNothingUnread(ReadAll(ns, userId), userId);
  }

  class NotificationLedger {
    var notifications: seq<Notification>
    var nextId: int

    ghost predicate Valid()
      reads this
    {
      && nextId > 0
      && (forall i :: 0 <= i < |notifications| ==> 0 < notifications[i].id < nextId)
      && KeysDistinct(notifications, NotificationKey)
    }

    constructor ()
      ensures Valid() && notifications == [] && nextId == 1
    {
      notifications := [];
      nextId := 1;
    }

    /** `AddNotificationAsync`: refuses a non-positive user id or a blank
        title; otherwise stores the notification under a fresh id, sent at
        `now` and unread. */
    method AddNotification(n: Notification, now: int) returns (ok: bool)
      requires Valid()
      modifies this
      ensures Valid()
      ensures ok <==> n.userId > 0 && !IsBlank(n.title)
      ensures ok ==> notifications == old(notifications) + [n.(id := old(nextId), sentDate := now, isRead := false)]
                     && nextId == old(nextId) + 1
      ensures !ok ==> notifications == old(notifications) && nextId == old(nextId)
    {
      if n.userId <= 0 || IsBlank(n.title) {
        return false;
      }
      var stored := n.(id := nextId, sentDate := now, isRead := false);
      notifications := notifications + [stored];
      nextId := nextId + 1;
      ok := true;
    }

    /** `MarkAsReadAsync`: refuses an unknown or already read notification;
        otherwise flips exactly that one to read. */
    method MarkAsRead(id: int) returns (ok: bool)
      requires Valid()
      modifies this
      ensures Valid() && nextId == old(nextId)
      ensures match IndexOfKey(old(notifications), NotificationKey, id)
              case None => notifications == old(notifications) && !ok
              case Some(k) =>
                if old(notifications)[k].isRead then notifications == old(notifications) && !ok
                else notifications == old(notifications)[k := old(notifications)[k].(isRead := true)] && ok
    {
      var found := IndexOfKey(notifications, NotificationKey, id);
      if found.None? || notifications[found.value].isRead {
        return false;
      }
      var k := found.value;
      notifications := notifications[k := notifications[k].(isRead := true)];
      ok := true;
    }

    /** `MarkAllAsReadAsync`: flips every unread notification of the user to
        read, one row at a time; with nothing unread it succeeds at once. */
    method MarkAllAsRead(userId: int) returns (ok: bool)
      requires Valid()
      modifies this
      ensures Valid() && nextId == old(nextId) && ok
      ensures notifications == ReadAll(old(notifications), userId)
      ensures UnreadCount(old(notifications), userId) == 0 ==> notifications == old(notifications)
    {
      if UnreadCount(notifications, userId) == 0 {
        ReadAllWithNothingUnread(notifications, userId);
        return true;
      }
      ghost var before := notifications;
      var i := 0;
      while i < |notifications|
        invariant 0 <= i <= |notifications| == |before|
        invariant nextId == old(nextId)
        invariant forall j :: 0 <= j < i ==> notifications[j] == ReadFor(before[j], userId)
        invariant forall j :: i <= j < |notifications| ==> notifications[j] == before[j]
      {
        if notifications[i].userId == userId && !notifications[i].isRead {
          notifications := notifications[i := notifications[i].(isRead := true)];
        }
        i := i + 1;
      }
      assert forall j :: 0 <= j < |notifications| ==> notifications[j].id == before[j].id;
      ok := true;
    }
  }
}
