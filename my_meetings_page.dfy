/**
 * The logic of the "My Meetings" page: the `queryCalls` request it sends
 * (what calls it asks for, in what order) and, for each call listed, the link
 * and the "Upcomming"/"Ended" labels derived from its timestamps.
 */
module MyMeetingsPage {
  import opened Wrappers
  import JsString
  import MeetingRoute

  /**
   * What the page reads of a call returned by the call service. Times are
   * millisecond time values; `startsAt` and `endedAt` may be absent.
   */
  datatype CallInfo = CallInfo(
    id: string,
    startsAt: Option<int>,
    endedAt: Option<int>,
    createdBy: string,
    memberIds: seq<string>,
    description: string)

  // ---------------------------------------------------------------------
  // The listing query

  /**
   * The filter language of `filter_conditions`: `$exists`, equality, `$in` on
   * the member list, `$or`, and the implicit conjunction of an object's keys.
   */
  datatype Condition =
    | Exists(field: string)
    | Equals(field: string, value: string)
    | MembersIn(values: seq<string>)
    | AnyOf(alternatives: seq<Condition>)
    | AllOf(conjuncts: seq<Condition>)

  /** One `sort` entry: a field and a direction (1 ascending, -1 descending). */
  datatype SortKey = SortKey(field: string, direction: int)

  datatype CallsQuery = CallsQuery(sort: seq<SortKey>, filter: Condition)

  /**
   * Whether a call satisfies a condition. Only the fields this page uses are
   * known: `starts_at`, `ended_at`, `id`, `created_by_user_id` and `members`;
   * a condition on any other field does not hold.
   */
  predicate Holds(c: Condition, call: CallInfo)
    decreases c
  {
    match c
    case Exists(field) =>
      (field == "starts_at" && call.startsAt.Some?) || (field == "ended_at" && call.endedAt.Some?)
      || field == "id" || field == "created_by_user_id"
    case Equals(field, value) =>
      (field == "id" && call.id == value) || (field == "created_by_user_id" && call.createdBy == value)
    case MembersIn(values) =>
      exists v :: v in values && v in call.memberIds
    case AnyOf(alternatives) =>
      exists i :: 0 <= i < |alternatives| && Holds(alternatives[i], call)
    case AllOf(conjuncts) =>
      forall i :: 0 <= i < |conjuncts| ==> Holds(conjuncts[i], call)
  }

  /**
   * `loadCalls`: no query without a client or a user id (an empty id counts as
   * missing); otherwise calls that have a start time and that the user created
   * or is a member of, latest start first.
   */
  function LoadCallsQuery(hasClient: bool, userId: Option<string>): (q: Option<CallsQuery>)
    ensures q.None? <==> !hasClient || userId.None? || userId.value == ""
    ensures q.Some? ==> q.value.sort == [SortKey("starts_at", -1)]
  {
    if !hasClient || userId.None? || !JsString.Truthy(userId.value) then None
    else
      var id := userId.value;
      Some(CallsQuery(
        [SortKey("starts_at", -1)],
        AllOf([Exists("starts_at"),
               AnyOf([Equals("created_by_user_id", id), MembersIn([id])])])))
  }

  /** The user's own calls with a start time: what the listing asks for. */
  predicate IsListable(userId: string, call: CallInfo) {
    call.startsAt.Some? && (call.createdBy == userId || userId in call.memberIds)
  }

  /** The listing filter holds of a call exactly when the call is listable for the user. */
  lemma LoadCallsFilter(userId: string, call: CallInfo)
    requires userId != ""
    ensures Holds(LoadCallsQuery(true, Some(userId)).value.filter, call) <==> IsListable(userId, call)
  {
    var created, member := Equals("created_by_user_id", userId), MembersIn([userId]);
    var alts := [created, member];
    var own := AnyOf(alts);
    var conj := [Exists("starts_at"), own];
    assert LoadCallsQuery(true, Some(userId)).value.filter == AllOf(conj);
    assert Holds(member, call) <==> userId in call.memberIds by {
      if userId in call.memberIds {
        assert userId in [userId];
      }
    }
    assert Holds(own, call) <==> Holds(created, call) || Holds(member, call) by {
      if Holds(created, call) { assert Holds(alts[0], call); }
      if Holds(member, call) { assert Holds(alts[1], call); }
    }
    assert Holds(AllOf(conj), call) <==> call.startsAt.Some? && Holds(own, call) by {
      assert conj[0] == Exists("starts_at") && conj[1] == own;
    }
  }

  /** The calls of `store` that satisfy `c`, in store order. */
  function Select(c: Condition, store: seq<CallInfo>): (r: seq<CallInfo>)
    ensures forall call :: call in r <==> call in store && Holds(c, call)
    ensures |r| <= |store|
  {
    if store == [] then []
    else (if Holds(c, store[0]) then [store[0]] else []) + Select(c, store[1..])
  }

  /** `a` comes no later than `b` under one sort key (only `starts_at` is modelled). */
  predicate NotAfter(key: SortKey, a: CallInfo, b: CallInfo) {
    key.field == "starts_at" && a.startsAt.Some? && b.startsAt.Some?
    && (if key.direction < 0 then a.startsAt.value >= b.startsAt.value
        else a.startsAt.value <= b.startsAt.value)
  }

  /**
   * `response` is a correct first page of the answer to `q` over the calls in
   * `store`: some of the selected calls, each at most as often as in the store,
   * ordered by the first sort key, and no selected call left off the page
   * comes before a call on it. The service returns results a page at a time
   * and the page reads only this first one; a page holding every selected
   * call is the case where nothing is left off.
   */
  predicate Answers(q: CallsQuery, store: seq<CallInfo>, response: seq<CallInfo>) {
    && multiset(response) <= multiset(Select(q.filter, store))
    && |q.sort| >= 1
    && (forall i, j :: 0 <= i < j < |response| ==> NotAfter(q.sort[0], response[i], response[j]))
    && (forall c, i :: c in Select(q.filter, store) && c !in response && 0 <= i < |response|
                       ==> NotAfter(q.sort[0], response[i], c))
  }

  /**
   * The page of the listing query lists only the user's own calls that have a
   * start time; such a call missing from the page starts no later than every
   * listed call; and when the page holds the whole answer, every such call of
   * the store is listed.
   */
  lemma ListedCalls(userId: string, store: seq<CallInfo>, response: seq<CallInfo>, call: CallInfo)
    requires userId != ""
    requires Answers(LoadCallsQuery(true, Some(userId)).value, store, response)
    ensures call in response ==> call in store && IsListable(userId, call)
    ensures call in store && IsListable(userId, call) && call !in response
            ==> forall listed :: listed in response
                  ==> listed.startsAt.Some? && call.startsAt.value <= listed.startsAt.value
    ensures multiset(response) == multiset(Select(LoadCallsQuery(true, Some(userId)).value.filter, store))
            ==> (call in response <==> call in store && IsListable(userId, call))
  {
    var q := LoadCallsQuery(true, Some(userId)).value;
    LoadCallsFilter(userId, call);
    assert call in response ==> call in multiset(response);
    assert call in Select(q.filter, store) <==> call in multiset(Select(q.filter, store));
    if call in store && IsListable(userId, call) && call !in response {
      forall listed | listed in response
        ensures listed.startsAt.Some? && call.startsAt.value <= listed.startsAt.value
      {
        var i :| 0 <= i < |response| && response[i] == listed;
        assert NotAfter(q.sort[0], response[i], call);
      }
    }
  }

  // ---------------------------------------------------------------------
  // One entry of the list

  /** What one list item shows: its link, whether each label is shown, and the description line. */
  datatype ListEntry = ListEntry(link: string, upcoming: bool, ended: bool, description: string)

  /** `call.state.startsAt && new Date(call.state.startsAt) > new Date()`. */
  predicate InFuture(startsAt: Option<int>, now: int) {
    startsAt.Some? && startsAt.value > now
  }

  /** `!!call.state.endedAt`. */
  predicate HasEnded(endedAt: Option<int>) {
    endedAt.Some?
  }

  /** `MeetingsLists` for one call at time `now`. */
  function Entry(call: CallInfo, now: int): (e: ListEntry)
    ensures e.link == MeetingRoute.MeetingPath(call.id)
    ensures call.id != "" && '/' !in call.id ==> MeetingRoute.RouteId(e.link) == Some(call.id)
    ensures e.upcoming <==> call.startsAt.Some? && call.startsAt.value > now
    ensures e.ended <==> call.endedAt.Some?
    ensures e.description == call.description
  {
    MeetingRoute.RouteOfMeetingPath(call.id);
    ListEntry(MeetingRoute.MeetingPath(call.id), InFuture(call.startsAt, now),
              HasEnded(call.endedAt), call.description)
  }

  /** The label text after the start time: " (Upcomming)" then "(Ended)", each when its flag holds. */
  function Labels(e: ListEntry): string {
    (if e.upcoming then " (Upcomming)" else "") + (if e.ended then "(Ended)" else "")
  }

  /**
   * A meeting starting exactly now is not upcoming, and one upcoming at some
   * time was upcoming at every earlier time.
   */
  lemma UpcomingIsStrict(call: CallInfo, now: int, earlier: int)
    requires earlier <= now
    ensures call.startsAt == Some(now) ==> !Entry(call, now).upcoming
    ensures Entry(call, now).upcoming ==> Entry(call, earlier).upcoming
  {
  }

  /**
   * Each label depends on its own timestamp only: changing the start never
   * changes "Ended", changing the end never changes "Upcomming".
   */
  lemma FlagsIndependent(call: CallInfo, now: int, startsAt: Option<int>, endedAt: Option<int>)
    ensures Entry(call.(startsAt := startsAt), now).ended == Entry(call, now).ended
    ensures Entry(call.(endedAt := endedAt), now).upcoming == Entry(call, now).upcoming
  {
  }

  /** A call with a future start that has nevertheless ended shows both labels. */
  lemma BothLabels(call: CallInfo, now: int)
    requires call.startsAt.Some? && call.startsAt.value > now && call.endedAt.Some?
    ensures Labels(Entry(call, now)) == " (Upcomming)(Ended)"
  {
  }

  /** On a correct page of the listing query the upcoming meetings come first. */
  lemma UpcomingListedFirst(userId: string, store: seq<CallInfo>, response: seq<CallInfo>, now: int)
    requires userId != ""
    requires Answers(LoadCallsQuery(true, Some(userId)).value, store, response)
    ensures forall i, j :: 0 <= i < j < |response| && Entry(response[j], now).upcoming
                           ==> Entry(response[i], now).upcoming
  {
    var key := LoadCallsQuery(true, Some(userId)).value.sort[0];
    forall i, j | 0 <= i < j < |response| && Entry(response[j], now).upcoming
      ensures Entry(response[i], now).upcoming
    {
      assert NotAfter(key, response[i], response[j]);
    }
  }
}
