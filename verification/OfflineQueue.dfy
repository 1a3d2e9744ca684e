/** The queue of changes made while offline, kept in the browser's storage, newest first. */
module OfflineQueue {
  import opened Options

  datatype Status = PENDING | SYNCING | SYNCED | FAILED

  /** What never changes about an item once it is queued. */
  datatype Identity = Identity(localActionId: string, idempotencyKey: string, actionType: string, payload: string,
                               createdAt: Option<int>, ownerUserId: Option<string>, tenantId: Option<string>)

  /** `createdAt` of the identity is the time in milliseconds, if the stored text is a date. */
  datatype Item = Item(id: Identity, status: Status, retryCount: int, lastError: Option<string>,
                       serverReference: Option<string>)

  /** The fields that a patch names. */
  datatype Patch = Patch(status: Option<Status>, retryCount: Option<int>, lastError: Option<string>,
                         serverReference: Option<string>)

  function ValueOr<T>(change: Option<T>, current: T): T {
    match change
    case None => current
    case Some(v) => v
  }

  function Patched(item: Item, p: Patch): Item {
    item.(status := ValueOr(p.status, item.status),
          retryCount := ValueOr(p.retryCount, item.retryCount),
          lastError := if p.lastError.Some? then p.lastError else item.lastError,
          serverReference := if p.serverReference.Some? then p.serverReference else item.serverReference)
  }

  const DAY_MS := 24 * 60 * 60 * 1000
  const MAX_RETRIES := 5

  /** An item stays unless it was sent and is a day old; without a readable time a sent item goes at once. */
  predicate Kept(item: Item, now: int) {
    item.status != SYNCED || (item.id.createdAt.Some? && now - item.id.createdAt.value < DAY_MS)
  }

  predicate Sendable(item: Item, userId: string, tenantId: Option<string>, actionType: string) {
    && item.id.actionType == actionType
    && item.status in {PENDING, FAILED, SYNCING}
    && item.retryCount < MAX_RETRIES
    && item.id.ownerUserId == Some(userId)
    && item.id.tenantId == tenantId
  }

  function KeptAt(now: int): Item -> bool { item => Kept(item, now) }

  function SendableBy(userId: string, tenantId: Option<string>, actionType: string): Item -> bool {
    item => Sendable(item, userId, tenantId, actionType)
  }

  function Filter(queue: seq<Item>, keep: Item -> bool): (kept: seq<Item>)
    ensures |kept| <= |queue|
    ensures |kept| == |queue| ==> kept == queue
  {
    if queue == [] then []
    else
      var last := queue[|queue| - 1];
      assert queue == queue[..|queue| - 1] + [last];
      Filter(queue[..|queue| - 1], keep) + if keep(last) then [last] else []
  }

  predicate HasKey(queue: seq<Item>, key: string) {
    exists k | 0 <= k < |queue| :: queue[k].id.idempotencyKey == key
  }

  datatype Op =
    | Enqueue(id: Identity)
    | Update(localActionId: string, patch: Patch)
    | Prune(now: int)

  function Apply(queue: seq<Item>, op: Op): seq<Item> {
    match op
    case Enqueue(id) => if HasKey(queue, id.idempotencyKey) then queue else [Item(id, PENDING, 0, None, None)] + queue
    case Update(localId, p) =>
      seq(|queue|, k requires 0 <= k < |queue| =>
        if queue[k].id.localActionId == localId then Patched(queue[k], p) else queue[k])
    case Prune(now) => Filter(queue, KeptAt(now))
  }

  function ApplyAll(queue: seq<Item>, ops: seq<Op>): seq<Item> {
    if ops == [] then queue else Apply(ApplyAll(queue, ops[..|ops| - 1]), ops[|ops| - 1])
  }

  /** The stored queue and the operations that rewrite it. */
  class Queue {
    var items: seq<Item>

    constructor (stored: seq<Item>)
      ensures items == stored
    {
      items := stored;
    }

    /** `enqueueOfflineAction`; `id` holds the draft and the time of the call. */
    method EnqueueOfflineAction(id: Identity) returns (queue: seq<Item>)
      modifies this
      ensures items == queue == Apply(old(items), Enqueue(id))
    {
      if HasKey(items, id.idempotencyKey) {
        return items;
      }
      items := [Item(id, PENDING, 0, None, None)] + items;
      return items;
    }

    /** `updateOfflineAction` */
    method UpdateOfflineAction(localActionId: string, patch: Patch) returns (queue: seq<Item>)
      modifies this
      ensures items == queue == Apply(old(items), Update(localActionId, patch))
    {
      var n := |items|;
      var next := [];
      for k := 0 to n
        invariant items == old(items)
        invariant next == Apply(items, Update(localActionId, patch))[..k]
      {
        next := next + [if items[k].id.localActionId == localActionId then Patched(items[k], patch) else items[k]];
      }
      items := next;
      return items;
    }

    /** `pruneSyncedOfflineActions`: the storage is written only when something goes. */
    method PruneSyncedOfflineActions(now: int)
      modifies this
      ensures items == Apply(old(items), Prune(now))
    {
      var kept := Filter(items, KeptAt(now));
      if |kept| != |items| {
        items := kept;
      }
    }

    /** `replayableOfflineActions`; without a user nothing may be sent. */
    method ReplayableOfflineActions(userId: Option<string>, tenantId: Option<string>, actionType: string)
      returns (queue: seq<Item>)
      ensures queue == Replayable(items, userId, tenantId, actionType)
      ensures exists places :: IsReplay(queue, items, places, userId, tenantId, actionType)
    {
      ghost var places := ReplayIsOwnersItems(items, userId, tenantId, actionType);
      if userId.None? || userId.value == "" {
        return [];
      }
      queue := Filter(items, SendableBy(userId.value, tenantId, actionType));
    }
  }

  function Replayable(queue: seq<Item>, userId: Option<string>, tenantId: Option<string>, actionType: string): seq<Item>
  {
    if userId.None? || userId.value == "" then []
    else Filter(queue, SendableBy(userId.value, tenantId, actionType))
  }

  /** The user's own items of this kind that were not sent yet and did not fail too often. */
  predicate IsDue(item: Item, userId: Option<string>, tenantId: Option<string>, actionType: string) {
    && userId != None && userId != Some("") && item.id.ownerUserId == userId && item.id.tenantId == tenantId
    && item.id.actionType == actionType && item.status != SYNCED && item.retryCount < 5
  }

  /** The items at these places, in the order of the queue and unchanged; the places are those of the items due. */
  ghost predicate IsReplay(sent: seq<Item>, queue: seq<Item>, places: seq<nat>,
                           userId: Option<string>, tenantId: Option<string>, actionType: string) {
    && PicksFrom(sent, queue, places) && AreAt(sent, queue, places)
    && forall p: nat :: p in places <==> p < |queue| && IsDue(queue[p], userId, tenantId, actionType)
  }

  // ---------- What every run of operations keeps ----------

  ghost predicate DistinctKeys(queue: seq<Item>) {
    forall i, j | 0 <= i < j < |queue| :: queue[i].id.idempotencyKey != queue[j].id.idempotencyKey
  }

  /** The elements at these places of `queue`, in increasing order, are those of `kept`, identity by identity. */
  ghost predicate PicksFrom(kept: seq<Item>, queue: seq<Item>, places: seq<nat>) {
    && |places| == |kept|
    && (forall i | 0 <= i < |kept| :: places[i] < |queue| && kept[i].id == queue[places[i]].id)
    && (forall i, j | 0 <= i < j < |kept| :: places[i] < places[j])
  }

  /** The places are exactly those of the elements to keep. */
  ghost predicate ArePlaces(places: seq<nat>, queue: seq<Item>, keep: Item -> bool) {
    forall p: nat :: p in places <==> p < |queue| && keep(queue[p])
  }

  ghost predicate AreAt(kept: seq<Item>, queue: seq<Item>, places: seq<nat>) {
    |places| == |kept| && forall i | 0 <= i < |kept| :: places[i] < |queue| && kept[i] == queue[places[i]]
  }

  /** A filter picks elements in order and leaves them as they are. */
  lemma {:induction false} FilterPicks(queue: seq<Item>, keep: Item -> bool) returns (places: seq<nat>)
    ensures PicksFrom(Filter(queue, keep), queue, places) && AreAt(Filter(queue, keep), queue, places)
    ensures ArePlaces(places, queue, keep)
  {
    if queue == [] {
      places := [];
    } else {
      hide PicksFrom, AreAt, ArePlaces;
      var n := |queue| - 1;
      var front := Filter(queue[..n], keep);
      places := FilterPicks(queue[..n], keep);
      PicksFromLonger(front, queue, places);
      OneMorePlace(places, queue, keep);
      if keep(queue[n]) { places := places + [n]; }
    }
  }

  lemma OneMorePlace(places: seq<nat>, queue: seq<Item>, keep: Item -> bool)
    requires queue != [] && ArePlaces(places, queue[..|queue| - 1], keep)
    ensures ArePlaces(if keep(queue[|queue| - 1]) then places + [|queue| - 1] else places, queue, keep)
  {
    var front := queue[..|queue| - 1];
    assert forall p: nat | p < |front| :: front[p] == queue[p];
  }

  lemma PicksFromLonger(kept: seq<Item>, queue: seq<Item>, places: seq<nat>)
    requires queue != [] && PicksFrom(kept, queue[..|queue| - 1], places) && AreAt(kept, queue[..|queue| - 1], places)
    ensures PicksFrom(kept, queue, places) && AreAt(kept, queue, places)
    ensures PicksFrom(kept + [queue[|queue| - 1]], queue, places + [|queue| - 1])
    ensures AreAt(kept + [queue[|queue| - 1]], queue, places + [|queue| - 1])
  {
  }

  /** It keeps exactly the elements that satisfy its condition. */
  lemma {:induction false} FilterKeeps(queue: seq<Item>, keep: Item -> bool, item: Item)
    ensures item in Filter(queue, keep) <==> item in queue && keep(item)
  {
    if queue != [] {
      var n := |queue| - 1;
      FilterKeeps(queue[..n], keep, item);
      assert queue == queue[..n] + [queue[n]];
    }
  }

  lemma PicksCompose(c: seq<Item>, b: seq<Item>, a: seq<Item>, outer: seq<nat>, inner: seq<nat>)
    returns (places: seq<nat>)
    requires PicksFrom(c, b, outer) && PicksFrom(b, a, inner)
    ensures PicksFrom(c, a, places)
  {
    places := seq(|outer|, i requires 0 <= i < |outer| => inner[outer[i]]);
  }

  lemma {:induction false} FilterConcat(a: seq<Item>, b: seq<Item>, keep: Item -> bool)
    ensures Filter(a + b, keep) == Filter(a, keep) + Filter(b, keep)
  {
    if b == [] {
      assert a + b == a;
    } else {
      assert (a + b)[..|a + b| - 1] == a + b[..|b| - 1];
      FilterConcat(a, b[..|b| - 1], keep);
    }
  }

  /** No operation makes two items share an idempotency key. */
  lemma {:induction false} KeysStayDistinct(queue: seq<Item>, ops: seq<Op>)
    requires DistinctKeys(queue)
    ensures DistinctKeys(ApplyAll(queue, ops))
  {
    if ops != [] {
      KeysStayDistinct(queue, ops[..|ops| - 1]);
      var before, op := ApplyAll(queue, ops[..|ops| - 1]), ops[|ops| - 1];
      if op.Prune? {
        var places := FilterPicks(before, KeptAt(op.now));
        forall i, j | 0 <= i < j < |places|
          ensures Apply(before, op)[i].id.idempotencyKey != Apply(before, op)[j].id.idempotencyKey
        {
          assert before[places[i]].id.idempotencyKey != before[places[j]].id.idempotencyKey;
        }
      }
    }
  }

  /**
   * After any operations the queue is the items queued by them in front of items that were there before: those
   * keep everything that identifies them and their order among each other.
   */
  lemma {:induction false} OrderAndIdentityStay(queue: seq<Item>, ops: seq<Op>) returns (newer: nat, places: seq<nat>)
    ensures newer <= |ApplyAll(queue, ops)| && PicksFrom(ApplyAll(queue, ops)[newer..], queue, places)
    ensures forall i | 0 <= i < newer :: Enqueue(ApplyAll(queue, ops)[i].id) in ops
  {
    if ops == [] {
      newer, places := 0, seq(|queue|, k => k);
    } else {
      var before, op := ApplyAll(queue, ops[..|ops| - 1]), ops[|ops| - 1];
      newer, places := OrderAndIdentityStay(queue, ops[..|ops| - 1]);
      var n := newer;
      newer, places := OperationPicks(queue, before, op, newer, places);
      forall i | 0 <= i < newer ensures Enqueue(ApplyAll(queue, ops)[i].id) in ops {
        if op != Enqueue(Apply(before, op)[i].id) {
          var j :| 0 <= j < n && before[j].id == Apply(before, op)[i].id;
          assert Enqueue(before[j].id) in ops[..|ops| - 1];
        }
      }
    }
  }

  lemma OperationPicks(queue: seq<Item>, before: seq<Item>, op: Op, newer: nat, places: seq<nat>)
    returns (newer': nat, places': seq<nat>)
    requires newer <= |before| && PicksFrom(before[newer..], queue, places)
    ensures newer' <= |Apply(before, op)| && PicksFrom(Apply(before, op)[newer'..], queue, places')
    ensures forall i | 0 <= i < newer' ::
              || op == Enqueue(Apply(before, op)[i].id)
              || exists j :: 0 <= j < newer && before[j].id == Apply(before, op)[i].id
  {
    hide Apply, PicksFrom;
    match op
    case Enqueue(id) => newer', places' := EnqueuePicks(queue, before, id, newer, places);
    case Update(localId, p) =>
      newer', places' := newer, places;
      UpdatePicks(queue, before, localId, p, newer, places);
    case Prune(now) =>
      assert Apply(before, op) == Filter(before, KeptAt(now)) by { PruneFilters(before, now); }
      newer', places' := PrunePicks(queue, before, now, newer, places);
  }

  lemma PruneFilters(before: seq<Item>, now: int)
    ensures Apply(before, Prune(now)) == Filter(before, KeptAt(now))
  {
  }

  lemma EnqueuePicks(queue: seq<Item>, before: seq<Item>, id: Identity, newer: nat, places: seq<nat>)
    returns (newer': nat, places': seq<nat>)
    requires newer <= |before| && PicksFrom(before[newer..], queue, places)
    ensures var after := Apply(before, Enqueue(id));
            && newer' <= |after| && PicksFrom(after[newer'..], queue, places')
            && forall i | 0 <= i < newer' ::
                 after[i].id == id || exists j :: 0 <= j < newer && before[j].id == after[i].id
  {
    hide PicksFrom;
    newer', places' := newer, places;
    if !HasKey(before, id.idempotencyKey) {
      var after := Apply(before, Enqueue(id));
      assert after[newer + 1..] == before[newer..];
      newer' := newer + 1;
      forall i | 0 < i < newer' ensures exists j :: 0 <= j < newer && before[j].id == after[i].id {
        assert before[i - 1].id == after[i].id;
      }
    }
  }

  lemma UpdatePicks(queue: seq<Item>, before: seq<Item>, localId: string, patch: Patch, newer: nat, places: seq<nat>)
    requires newer <= |before| && PicksFrom(before[newer..], queue, places)
    ensures var after := Apply(before, Update(localId, patch));
            && |after| == |before| && PicksFrom(after[newer..], queue, places)
            && forall i | 0 <= i < |before| :: after[i].id == before[i].id
  {
  }

  lemma PrunePicks(queue: seq<Item>, before: seq<Item>, now: int, newer: nat, places: seq<nat>)
    returns (newer': nat, places': seq<nat>)
    requires newer <= |before| && PicksFrom(before[newer..], queue, places)
    ensures newer' <= |Filter(before, KeptAt(now))| && PicksFrom(Filter(before, KeptAt(now))[newer'..], queue, places')
    ensures forall i | 0 <= i < newer' ::
              exists j :: 0 <= j < newer && before[j].id == Filter(before, KeptAt(now))[i].id
  {
    hide Kept;
    var a: seq<Item> := Filter(before[..newer], KeptAt(now));
    var b: seq<Item> := Filter(before[newer..], KeptAt(now));
    var outer := FilterPicks(before[newer..], KeptAt(now));
    var front := FilterPicks(before[..newer], KeptAt(now));
    assert before == before[..newer] + before[newer..];
    FilterConcat(before[..newer], before[newer..], KeptAt(now));
    newer' := |a|;
    assert (a + b)[newer'..] == b;
    places' := PicksCompose(b, before[newer..], queue, outer, places);
    forall i | 0 <= i < newer' ensures exists j :: 0 <= j < newer && before[j].id == a[i].id {
      assert before[front[i]].id == a[i].id;
    }
  }

  ghost predicate Holds(queue: seq<Item>, id: Identity) { exists k :: 0 <= k < |queue| && queue[k].id == id }

  /** Sent, and queued at least 24 hours before, or at a time that cannot be read. */
  predicate SentADayAgo(item: Item, now: int) {
    item.status == SYNCED && (item.id.createdAt.None? || now >= item.id.createdAt.value + 86_400_000)
  }

  /** A pruning that found the item sent and, if its time is readable, at least a day old. */
  ghost predicate PrunedAt(queue: seq<Item>, ops: seq<Op>, m: nat, id: Identity) {
    && m < |ops| && ops[m].Prune?
    && exists item :: item in ApplyAll(queue, ops[..m]) && item.id == id && SentADayAgo(item, ops[m].now)
  }

  /** An item that is no longer there was dropped by a pruning, after it had been sent. */
  lemma {:induction false} DroppedOnlyWhenSent(queue: seq<Item>, ops: seq<Op>, id: Identity)
    requires Holds(queue, id) && !Holds(ApplyAll(queue, ops), id)
    ensures exists m: nat :: PrunedAt(queue, ops, m, id)
  {
    if ops != [] {
      var n := |ops| - 1;
      var before := ApplyAll(queue, ops[..n]);
      if Holds(before, id) {
        var k :| 0 <= k < |before| && before[k].id == id;
        if !(ops[n].Prune? && !Kept(before[k], ops[n].now)) { StillThere(before, ops[n], k); }
        assert before[k] in ApplyAll(queue, ops[..n]);
        assert PrunedAt(queue, ops, n, id);
      } else {
        DroppedOnlyWhenSent(queue, ops[..n], id);
        var m: nat :| PrunedAt(queue, ops[..n], m, id);
        assert ops[..n][..m] == ops[..m];
        assert PrunedAt(queue, ops, m, id);
      }
    }
  }

  lemma StillThere(before: seq<Item>, op: Op, k: nat)
    requires k < |before| && !(op.Prune? && !Kept(before[k], op.now))
    ensures Holds(Apply(before, op), before[k].id)
  {
    var after := Apply(before, op);
    match op
    case Enqueue(_) =>
      if after != before { assert after[k + 1].id == before[k].id; }
    case Update(_, _) =>
      assert after[k].id == before[k].id;
    case Prune(now) =>
      FilterKeeps(before, KeptAt(now), before[k]);
      var i :| 0 <= i < |after| && after[i] == before[k];
      assert after[i].id == before[k].id;
  }

  /** What may be sent now is exactly what is due of the owner, in the order of the queue; without a user nothing is. */
  lemma ReplayIsOwnersItems(queue: seq<Item>, userId: Option<string>, tenantId: Option<string>, actionType: string)
    returns (places: seq<nat>)
    ensures IsReplay(Replayable(queue, userId, tenantId, actionType), queue, places, userId, tenantId, actionType)
  {
    if userId.None? || userId.value == "" {
      places := [];
    } else {
      places := FilterPicks(queue, SendableBy(userId.value, tenantId, actionType));
    }
  }

  lemma ReplayedIsDue(queue: seq<Item>, userId: Option<string>, tenantId: Option<string>, actionType: string,
                      item: Item)
    ensures item in Replayable(queue, userId, tenantId, actionType)
            <==> item in queue && IsDue(item, userId, tenantId, actionType)
  {
    if userId.Some? { FilterKeeps(queue, SendableBy(userId.value, tenantId, actionType), item); }
  }

  /** Two different owners never send items with the same idempotency key, whatever kinds of action they replay. */
  lemma OwnersAreDisjoint(queue: seq<Item>, u: Option<string>, t: Option<string>, v: Option<string>, w: Option<string>,
                          actionType: string, otherType: string, a: Item, b: Item)
    requires DistinctKeys(queue) && (u, t) != (v, w)
    requires a in Replayable(queue, u, t, actionType) && b in Replayable(queue, v, w, otherType)
    ensures a.id.idempotencyKey != b.id.idempotencyKey
  {
    ReplayedIsDue(queue, u, t, actionType, a);
    ReplayedIsDue(queue, v, w, otherType, b);
    var i :| 0 <= i < |queue| && queue[i] == a;
    var j :| 0 <= j < |queue| && queue[j] == b;
    assert i != j;
  }

  /** Pruning never takes anything out of a replay: what any owner may send stays the same, in the same order. */
  lemma {:induction false} PruneKeepsReplay(queue: seq<Item>, now: int, userId: Option<string>,
                                            tenantId: Option<string>, actionType: string)
    ensures Replayable(Apply(queue, Prune(now)), userId, tenantId, actionType)
            == Replayable(queue, userId, tenantId, actionType)
  {
    if userId.Some? { FilterTwice(queue, KeptAt(now), SendableBy(userId.value, tenantId, actionType)); }
  }

  lemma {:induction false} FilterTwice(queue: seq<Item>, wide: Item -> bool, narrow: Item -> bool)
    requires forall item :: narrow(item) ==> wide(item)
    ensures Filter(Filter(queue, wide), narrow) == Filter(queue, narrow)
  {
    if queue != [] {
      var n := |queue| - 1;
      FilterTwice(queue[..n], wide, narrow);
      if wide(queue[n]) {
        FilterConcat(Filter(queue[..n], wide), [queue[n]], narrow);
        assert [queue[n]][..0] == [] && Filter([], narrow) == [];
        assert Filter([queue[n]], narrow) == if narrow(queue[n]) then [queue[n]] else [];
      } else {
        assert Filter(queue, wide) == Filter(queue[..n], wide);
      }
    }
  }

  /** Once an action is marked as sent, no owner's replay holds it any more; other actions stay as they are. */
  lemma {:induction false} SentIsNotReplayed(queue: seq<Item>, localId: string, patch: Patch, userId: Option<string>,
                                             tenantId: Option<string>, actionType: string, item: Item)
    requires patch.status == Some(SYNCED)
    ensures item in Replayable(Apply(queue, Update(localId, patch)), userId, tenantId, actionType)
            <==> item in Replayable(queue, userId, tenantId, actionType) && item.id.localActionId != localId
  {
    if userId.Some? && userId.value != "" {
      var after := Apply(queue, Update(localId, patch));
      var keep := SendableBy(userId.value, tenantId, actionType);
      FilterKeeps(queue, keep, item);
      FilterKeeps(after, keep, item);
      if item in queue && item.id.localActionId != localId {
        var k :| 0 <= k < |queue| && queue[k] == item;
        assert after[k] == item;
      }
    }
  }

  // ---------- What each operation does to the queue and to the replays ----------

  /**
   * A new key puts one item with this identity, without retries and not yet sent, in front of its owner's replay of its
   * kind; every other replay stays as it is. A key that is there already changes nothing.
   */
  lemma {:induction false} QueuedIsReplayed(queue: seq<Item>, id: Identity, userId: Option<string>,
                                            tenantId: Option<string>, actionType: string)
    ensures var after := Apply(queue, Enqueue(id));
            var mine := userId != None && userId != Some("") && id.ownerUserId == userId && id.tenantId == tenantId
                        && id.actionType == actionType;
            var replay := Replayable(after, userId, tenantId, actionType);
            if exists k :: 0 <= k < |queue| && queue[k].id.idempotencyKey == id.idempotencyKey then after == queue
            else && |after| == |queue| + 1 && after[1..] == queue && after[0].id == id && after[0].status == PENDING
                 && after[0].retryCount == 0 && after[0].lastError == None && after[0].serverReference == None
                 && replay == (if mine then [after[0]] else []) + Replayable(queue, userId, tenantId, actionType)
  {
    var after := Apply(queue, Enqueue(id));
    if !HasKey(queue, id.idempotencyKey) && userId.Some? && userId.value != "" {
      var keep := SendableBy(userId.value, tenantId, actionType);
      FilterConcat([after[0]], queue, keep);
      assert [after[0]][..0] == [] && Filter([], keep) == [];
      assert Filter([after[0]], keep) == if keep(after[0]) then [after[0]] else [];
    }
  }

  /** An item that is due stays in its owner's replay over all operations, until an update names it. */
  lemma {:induction false} DueUntilUpdated(queue: seq<Item>, ops: seq<Op>, userId: Option<string>,
                                           tenantId: Option<string>, actionType: string, item: Item)
    requires item in Replayable(queue, userId, tenantId, actionType)
    requires forall op | op in ops && op.Update? :: op.localActionId != item.id.localActionId
    ensures item in Replayable(ApplyAll(queue, ops), userId, tenantId, actionType)
  {
    if ops != [] {
      var n := |ops| - 1;
      var before, op := ApplyAll(queue, ops[..n]), ops[n];
      DueUntilUpdated(queue, ops[..n], userId, tenantId, actionType, item);
      ReplayedIsDue(before, userId, tenantId, actionType, item);
      ReplayedIsDue(Apply(before, op), userId, tenantId, actionType, item);
      StaysInQueue(before, op, item);
    }
  }

  lemma StaysInQueue(before: seq<Item>, op: Op, item: Item)
    requires item in before && item.status != SYNCED && !(op.Update? && op.localActionId == item.id.localActionId)
    ensures item in Apply(before, op)
  {
    var k :| 0 <= k < |before| && before[k] == item;
    match op
    case Enqueue(_) => assert Apply(before, op) != before ==> Apply(before, op)[k + 1] == item;
    case Update(_, _) => assert Apply(before, op)[k] == item;
    case Prune(now) => FilterKeeps(before, KeptAt(now), item);
  }

  /** A queued action of a user is sent at some time: it stays in the owner's replay until an update names it. */
  lemma {:induction false} QueuedIsDue(queue: seq<Item>, id: Identity, ops: seq<Op>)
    requires id.ownerUserId != None && id.ownerUserId != Some("")
    requires forall k | 0 <= k < |queue| :: queue[k].id.idempotencyKey != id.idempotencyKey
    requires forall op | op in ops && op.Update? :: op.localActionId != id.localActionId
    ensures exists item: Item :: item.id == id && item.retryCount == 0
                           && item in Replayable(ApplyAll(Apply(queue, Enqueue(id)), ops),
                                                 id.ownerUserId, id.tenantId, id.actionType)
  {
    var after := Apply(queue, Enqueue(id));
    QueuedIsReplayed(queue, id, id.ownerUserId, id.tenantId, id.actionType);
    DueUntilUpdated(after, ops, id.ownerUserId, id.tenantId, id.actionType, after[0]);
  }

  /** An update changes in the named items the fields that the patch names, and nothing else. */
  lemma UpdateChanges(queue: seq<Item>, localId: string, p: Patch, k: nat)
    requires k < |queue|
    ensures |Apply(queue, Update(localId, p))| == |queue|
    ensures var was, now := queue[k], Apply(queue, Update(localId, p))[k];
            if was.id.localActionId != localId then now == was else
              && now.id == was.id
              && (p.status.Some? ==> now.status == p.status.value)
              && (p.status.None? ==> now.status == was.status)
              && (p.retryCount.Some? ==> now.retryCount == p.retryCount.value)
              && (p.retryCount.None? ==> now.retryCount == was.retryCount)
              && now.lastError == (if p.lastError.Some? then p.lastError else was.lastError)
              && now.serverReference == (if p.serverReference.Some? then p.serverReference else was.serverReference)
  {
  }

  /** A pruning keeps the items, in their order, that are not sent, or sent less than a day ago at a readable time. */
  lemma {:induction false} PruneKeeps(queue: seq<Item>, now: int) returns (places: seq<nat>)
    ensures var after := Apply(queue, Prune(now)); PicksFrom(after, queue, places) && AreAt(after, queue, places)
    ensures forall p: nat :: p in places <==> p < |queue| && !SentADayAgo(queue[p], now)
  {
    places := FilterPicks(queue, KeptAt(now));
    hide PicksFrom, AreAt, Filter;
  }
}
