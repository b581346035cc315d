/** A user's notifications: the newest-first listing with its unread count,
    marking one or all as read, and deleting one. Only the recipient may
    touch a notification. */
module Notifications {
  import opened Values
  import opened Models
  import opened Errors
  import opened Database
  import opened Inventory
  import opened Ordering

  lemma NotificationsKeyedWrite(m: map<nat, Notification>, next: nat, k: nat, n: Notification)
    requires NotificationsKeyed(m, next) && k in m && n.id == k
    ensures NotificationsKeyed(m[k := n], next)
  {
  }

  // ---- get_notifications ----

  /** The listing's filter: the caller's notifications, and when an
      `is_read` query argument is present, only those with that flag. */
  predicate Shown(n: Notification, user: nat, isRead: Option<bool>) {
    n.userId == user && (isRead.None? || n.isRead == isRead.value)
  }

  function Selected(ns: map<nat, Notification>, user: nat, isRead: Option<bool>): set<nat> {
    set k | k in ns && Shown(ns[k], user, isRead)
  }

  /** The caller's unread notifications, the `unread_count` query. */
  function UnreadOf(user: nat): Notification -> bool {
    (n: Notification) => n.userId == user && !n.isRead
  }

  function UnreadCount(ns: map<nat, Notification>, user: nat): nat {
    Count(ns, UnreadOf(user))
  }

  /** The creation time of every notification, the listing's sort key. */
  function CreatedAt(ns: map<nat, Notification>): (t: map<nat, int>)
    ensures t.Keys == ns.Keys
  {
    map k | k in ns :: ns[k].createdAt
  }

  /** `ids` lists notifications of `ns` with non-increasing creation time. */
  predicate NewestFirst(ns: map<nat, Notification>, ids: seq<nat>) {
    Ordering.NewestFirst(CreatedAt(ns), ids)
  }

  /** `ids` is the whole selection, each notification once, newest first. */
  predicate ListingOf(ns: map<nat, Notification>, user: nat, isRead: Option<bool>, ids: seq<nat>) {
    multiset(ids) == multiset(Selected(ns, user, isRead)) && NewestFirst(ns, ids)
  }

  /** The listing of `get_notifications` before paging: the selected ids,
      newest first, their number, and the caller's unread count. */
  method ListNotifications(db: Db, user: nat, rawIsRead: Option<string>) returns (ids: seq<nat>, total: nat, unread: nat)
    ensures ListingOf(db.notifications, user, QueryBool(rawIsRead), ids)
    ensures total == |Selected(db.notifications, user, QueryBool(rawIsRead))|
    ensures unread == UnreadCount(db.notifications, user)
  {
    var ns := db.notifications;
    var isRead := QueryBool(rawIsRead);
    ids := SortNewestFirst(CreatedAt(ns), Selected(ns, user, isRead));
    total := |ids|;
    unread := UnreadCount(ns, user);
  }

  // ---- mark_notification_as_read ----

  /** The first check that refuses marking or deleting notification `id`
      for `actor`: it must exist and be addressed to the caller. */
  function OwnerRefusal(ns: map<nat, Notification>, actor: nat, id: nat): (e: Option<Error>)
    ensures e.None? <==> id in ns && ns[id].userId == actor
    ensures e.Some? ==> e.value == (if id in ns then Forbidden else NotFound)
  {
    if id !in ns then Some(NotFound)
    else if ns[id].userId != actor then Some(Forbidden)
    else None
  }

  /** Marks notification `id` read; marking it again changes nothing. */
  method MarkNotificationRead(db: Db, actor: nat, id: nat) returns (res: Result<Notification>)
    requires db.Valid()
    modifies db`notifications
    ensures db.Valid()
    ensures res.Err? <==> OwnerRefusal(old(db.notifications), actor, id).Some?
    ensures res.Err? ==>
      && res.error == OwnerRefusal(old(db.notifications), actor, id).value
      && db.notifications == old(db.notifications)
    ensures res.Ok? ==>
      && res.value == old(db.notifications)[id].(isRead := true)
      && db.notifications == old(db.notifications)[id := res.value]
    ensures res.Ok? && old(db.notifications)[id].isRead ==> db.notifications == old(db.notifications)
    ensures res.Ok? ==>
      UnreadCount(db.notifications, actor)
      == UnreadCount(old(db.notifications), actor) - (if old(db.notifications)[id].isRead then 0 else 1)
  {
    if id !in db.notifications {
      return Err(NotFound);
    }
    var n := db.notifications[id];
    if n.userId != actor {
      return Err(Forbidden);
    }
    var m := n.(isRead := true);
    CountAfterWrite(db.notifications, id, m, UnreadOf(actor));
    NotificationsKeyedWrite(db.notifications, db.nextNotificationId, id, m);
    db.notifications := db.notifications[id := m];
    return Ok(m);
  }

  // ---- delete_notification ----

  /** Deletes notification `id`, and only it. */
  method DeleteNotification(db: Db, actor: nat, id: nat) returns (res: Result<Notification>)
    requires db.Valid()
    modifies db`notifications
    ensures db.Valid()
    ensures res.Err? <==> OwnerRefusal(old(db.notifications), actor, id).Some?
    ensures res.Err? ==>
      && res.error == OwnerRefusal(old(db.notifications), actor, id).value
      && db.notifications == old(db.notifications)
    ensures res.Ok? ==>
      && res.value == old(db.notifications)[id]
      && db.notifications == old(db.notifications) - {id}
    ensures res.Ok? ==>
      UnreadCount(db.notifications, actor)
      == UnreadCount(old(db.notifications), actor) - (if old(db.notifications)[id].isRead then 0 else 1)
  {
    if id !in db.notifications {
      return Err(NotFound);
    }
    var n := db.notifications[id];
    if n.userId != actor {
      return Err(Forbidden);
    }
    CountAfterDelete(db.notifications, id, UnreadOf(actor));
    db.notifications := db.notifications - {id};
    return Ok(n);
  }

  // ---- mark_all_notifications_as_read ----

  /** The table after read-all for `user`: the user's unread notifications
      become read; every other row stays as it was. */
  function AllRead(ns: map<nat, Notification>, user: nat): map<nat, Notification> {
    map k | k in ns :: if UnreadOf(user)(ns[k]) then ns[k].(isRead := true) else ns[k]
  }

  /** Read-all changes no key and no id. */
  lemma AllReadKeyed(ns: map<nat, Notification>, next: nat, user: nat)
    requires NotificationsKeyed(ns, next)
    ensures NotificationsKeyed(AllRead(ns, user), next)
  {
  }

  /** Marks all of `actor`'s unread notifications read and returns how many
      there were. The rows are changed one by one in the session and
      committed together. */
  method MarkAllRead(db: Db, actor: nat) returns (marked: nat)
    requires db.Valid()
    modifies db`notifications
    ensures db.Valid()
    ensures db.notifications == AllRead(old(db.notifications), actor)
    ensures marked == UnreadCount(old(db.notifications), actor)
  {
    var ns0 := db.notifications;
    var selected := Matching(ns0, UnreadOf(actor));
    var ns := ns0;
    var remaining := selected;
    while remaining != {}
      invariant remaining <= selected
      invariant ns.Keys == ns0.Keys
      invariant forall k :: k in ns0 ==>
        ns[k] == if k in selected - remaining then ns0[k].(isRead := true) else ns0[k]
      decreases |remaining|
    {
      var k :| k in remaining;
      ns := ns[k := ns[k].(isRead := true)];
      remaining := remaining - {k};
    }
    ghost var after := AllRead(ns0, actor);
    forall k | k in ns0 ensures ns[k] == after[k] {
      assert k in selected <==> UnreadOf(actor)(ns0[k]);
    }
    assert ns.Keys == after.Keys;
    assert ns == after;
    AllReadKeyed(ns0, db.nextNotificationId, actor);
    db.notifications := ns;
    return |selected|;
  }

  /** Afterwards the user has no unread notification ... */
  lemma AllReadClearsUnread(ns: map<nat, Notification>, user: nat)
    ensures UnreadCount(AllRead(ns, user), user) == 0
  {
    var after := AllRead(ns, user);
    forall k | k in after ensures !UnreadOf(user)(after[k]) {
    }
    CountZeroIff(after, UnreadOf(user));
  }

  /** ... other users' notifications are untouched, and so is what the
      user had already read, and nothing is added or removed. */
  lemma AllReadOnlyTouchesUnread(ns: map<nat, Notification>, user: nat)
    ensures AllRead(ns, user).Keys == ns.Keys
    ensures forall k :: k in ns && ns[k].userId != user ==> AllRead(ns, user)[k] == ns[k]
    ensures forall k :: k in ns && ns[k].isRead ==> AllRead(ns, user)[k] == ns[k]
  {
  }

  /** Read-all of everything unread gives the same table as marking each of
      those notifications read one by one. */
  lemma AllReadIsMarkEach(ns: map<nat, Notification>, user: nat, k: nat)
    requires k in ns && UnreadOf(user)(ns[k])
    ensures AllRead(ns[k := ns[k].(isRead := true)], user) == AllRead(ns, user)
  {
    var ns1 := ns[k := ns[k].(isRead := true)];
    assert AllRead(ns1, user).Keys == AllRead(ns, user).Keys;
    forall j | j in ns ensures AllRead(ns1, user)[j] == AllRead(ns, user)[j] {
    }
  }

  /** The listing with the unread filter shows exactly the unread count. */
  lemma UnreadListingMatchesCount(ns: map<nat, Notification>, user: nat)
    ensures |Selected(ns, user, Some(false))| == UnreadCount(ns, user)
  {
    assert Selected(ns, user, Some(false)) == Matching(ns, UnreadOf(user));
  }
}
