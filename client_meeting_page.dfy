/**
 * The logic of the meeting-creation page: the call type chosen from the
 * participant field, the participant e-mail tokens, the deduplicated member
 * list, the request sent to the call service, the invitation link and the
 * mailto invitation.
 */
module ClientMeetingPage {
  import opened Wrappers
  import JsString
  import UriComponent
  import Mailto
  import MeetingRoute

  // ---------------------------------------------------------------------
  // Call type

  /** The two call-type namespaces a meeting is created under. */
  datatype CallType = Default | PrivateMeeting {
    function Name(): string {
      match this
      case Default => "default"
      case PrivateMeeting => "private-meeting"
    }
  }

  /**
   * The call type for the raw participant field: private exactly when the
   * field is not empty, with no trimming, so a field of blanks or commas
   * still makes a private meeting.
   */
  function ChooseCallType(participantsInput: string): (t: CallType)
    ensures t == PrivateMeeting <==> participantsInput != ""
    ensures t.Name() == (if participantsInput == "" then "default" else "private-meeting")
  {
    if JsString.Truthy(participantsInput) then PrivateMeeting else Default
  }

  /**
   * A participant field made only of blanks and commas yields no usable
   * e-mail address, yet the meeting is still created as a private one.
   */
  lemma BlankParticipantsStillPrivate(participantsInput: string)
    requires participantsInput != ""
    requires forall i :: 0 <= i < |participantsInput| ==>
               participantsInput[i] == ',' || JsString.IsWhiteSpace(participantsInput[i])
    ensures forall e :: e in ParticipantEmails(participantsInput) ==> e == ""
    ensures ChooseCallType(participantsInput) == PrivateMeeting
  {
    var parts := JsString.Split(participantsInput, ',');
    forall i | 0 <= i < |parts|
      ensures JsString.Trim(parts[i]) == ""
    {
      PartOfBlankField(participantsInput, i);
      JsString.TrimAllWhiteSpace(parts[i]);
    }
  }

  /** Each comma-separated part of a field of blanks and commas is all blanks. */
  lemma {:induction false} PartOfBlankField(s: string, i: nat)
    requires forall k :: 0 <= k < |s| ==> s[k] == ',' || JsString.IsWhiteSpace(s[k])
    requires i < |JsString.Split(s, ',')|
    ensures JsString.AllWhiteSpace(JsString.Split(s, ',')[i])
  {
    if s != [] {
      var rest := JsString.Split(s[1..], ',');
      if s[0] == ',' {
        if i > 0 { PartOfBlankField(s[1..], i - 1); }
      } else if i == 0 {
        PartOfBlankField(s[1..], 0);
      } else {
        PartOfBlankField(s[1..], i);
      }
    }
  }

  // ---------------------------------------------------------------------
  // Participant e-mail tokens

  /** `participantsInput.split(",").map(email => email.trim())`. */
  function ParticipantEmails(participantsInput: string): (emails: seq<string>)
    ensures |emails| == JsString.Count(participantsInput, ',') + 1
    ensures forall i :: 0 <= i < |emails| ==> ',' !in emails[i] && JsString.Trimmed(emails[i])
    ensures participantsInput == "" ==> emails == [""]
  {
    var parts := JsString.Split(participantsInput, ',');
    seq(|parts|, i requires 0 <= i < |parts| => JsString.Trim(parts[i]))
  }

  /**
   * Addresses typed as a comma-separated list, each with any blanks around
   * it, come back as the list of addresses.
   */
  lemma ParticipantEmailsOfList(emails: seq<string>, padded: seq<string>)
    requires |emails| >= 1 && |padded| == |emails|
    requires forall i :: 0 <= i < |emails| ==> ',' !in padded[i] && JsString.Trim(padded[i]) == emails[i]
    ensures ParticipantEmails(JsString.Join(padded, ',')) == emails
  {
    JsString.SplitJoin(padded, ',');
  }

  // ---------------------------------------------------------------------
  // Member list

  const CallMemberRole := "call_member"

  /** One entry of the `members` list sent with the call. */
  datatype MemberRequest = MemberRequest(userId: string, role: string)

  /** Some entry of `a` has user id `id`. */
  predicate HasId(a: seq<MemberRequest>, id: string) {
    exists k :: 0 <= k < |a| && a[k].userId == id
  }

  /** No two entries of `a` share a user id. */
  predicate NoDuplicateIds(a: seq<MemberRequest>) {
    forall j, k :: 0 <= j < k < |a| ==> a[j].userId != a[k].userId
  }

  /** `a.findIndex(v2 => v2.user_id === id)`: the first index with that user id, or -1. */
  function FindIndex(a: seq<MemberRequest>, id: string): (r: int)
    ensures -1 <= r < |a|
    ensures r >= 0 ==> a[r].userId == id && forall k :: 0 <= k < r ==> a[k].userId != id
    ensures r == -1 <==> !HasId(a, id)
  {
    if a == [] then -1
    else if a[0].userId == id then 0
    else
      var r := FindIndex(a[1..], id);
      if r == -1 then -1 else r + 1
  }

  /** The entries of `a` from index `i` on that pass `a.findIndex(...) === i`. */
  function KeepFirstFrom(a: seq<MemberRequest>, i: nat): seq<MemberRequest>
    requires i <= |a|
    decreases |a| - i
  {
    if i == |a| then [] else Kept(a, i) + KeepFirstFrom(a, i + 1)
  }

  /** `[a[i]]` when entry `i` is the first with its user id, else nothing. */
  function Kept(a: seq<MemberRequest>, i: nat): seq<MemberRequest>
    requires i < |a|
  {
    if FindIndex(a, a[i].userId) == i then [a[i]] else []
  }

  /** `a.filter((v, i, a) => a.findIndex(v2 => v2.user_id === v.user_id) === i)`. */
  function DedupByUserId(a: seq<MemberRequest>): seq<MemberRequest> {
    KeepFirstFrom(a, 0)
  }

  /** Entries of the ids returned by the identity lookup, each as a call member. */
  function Requests(ids: seq<string>): (a: seq<MemberRequest>)
    ensures |a| == |ids|
    ensures forall k :: 0 <= k < |a| ==> a[k] == MemberRequest(ids[k], CallMemberRole)
  {
    seq(|ids|, k requires 0 <= k < |ids| => MemberRequest(ids[k], CallMemberRole))
  }

  /**
   * The member list of a new call: the looked-up participants, then the
   * requester, deduplicated by user id keeping first occurrences.
   */
  function Members(membersIds: seq<string>, requester: string): (m: seq<MemberRequest>)
    ensures NoDuplicateIds(m) && HasId(m, requester)
  {
    var a := Requests(membersIds) + [MemberRequest(requester, CallMemberRole)];
    DedupNoDuplicates(a);
    DedupSameIds(a, requester);
    assert a[|a| - 1].userId == requester;
    DedupByUserId(a)
  }

  /** Appending an entry does not move the first index of an id already present. */
  lemma FindIndexAppend(a: seq<MemberRequest>, x: MemberRequest, id: string)
    ensures FindIndex(a + [x], id) == if HasId(a, id) then FindIndex(a, id)
                                     else if x.userId == id then |a| else -1
  {
    var b := a + [x];
    var r := FindIndex(b, id);
    if HasId(a, id) {
      var k :| 0 <= k < |a| && a[k].userId == id;
      assert b[k].userId == id;
      var q := FindIndex(a, id);
      assert b[q].userId == id;
    } else if x.userId == id {
      assert b[|a|].userId == id;
    }
  }

  lemma FindIndexAppendPresent(a: seq<MemberRequest>, x: MemberRequest, i: nat)
    requires i < |a|
    ensures FindIndex(a + [x], a[i].userId) == FindIndex(a, a[i].userId)
  {
    FindIndexAppend(a, x, a[i].userId);
    assert HasId(a, a[i].userId);
  }

  /** The appended entry survives the filter exactly when its user id is new. */
  lemma KeepFirstFromLast(a: seq<MemberRequest>, x: MemberRequest)
    ensures KeepFirstFrom(a + [x], |a|) == if HasId(a, x.userId) then [] else [x]
  {
    var b := a + [x];
    FindIndexAppend(a, x, x.userId);
    assert b[|a|] == x;
    assert KeepFirstFrom(b, |a| + 1) == [];
  }

  /** An old entry is kept from the grown list exactly when it is kept from the old one. */
  lemma KeptAppend(a: seq<MemberRequest>, x: MemberRequest, i: nat)
    requires i < |a|
    ensures Kept(a + [x], i) == Kept(a, i)
  {
    assert (a + [x])[i] == a[i];
    FindIndexAppendPresent(a, x, i);
  }

  /** One step of `KeepFirstFromPrefix`: from index `i + 1` back to index `i`. */
  lemma KeepFirstFromStep(a: seq<MemberRequest>, x: MemberRequest, i: nat, last: seq<MemberRequest>)
    requires i < |a|
    requires KeepFirstFrom(a + [x], i + 1) == KeepFirstFrom(a, i + 1) + last
    ensures KeepFirstFrom(a + [x], i) == KeepFirstFrom(a, i) + last
  {
    KeptAppend(a, x, i);
  }

  /** The filter over the old entries of a grown list is the filter over the old list. */
  lemma {:induction false} KeepFirstFromPrefix(a: seq<MemberRequest>, x: MemberRequest, i: nat)
    requires i <= |a|
    ensures KeepFirstFrom(a + [x], i) == KeepFirstFrom(a, i) + KeepFirstFrom(a + [x], |a|)
    decreases |a| - i
  {
    var last := KeepFirstFrom(a + [x], |a|);
    if i == |a| {
      assert KeepFirstFrom(a, i) == [];
      assert [] + last == last;
    } else {
      KeepFirstFromPrefix(a, x, i + 1);
      KeepFirstFromStep(a, x, i, last);
    }
  }

  /**
   * Deduplicating a list with one more entry at the end: the earlier result,
   * followed by the new entry only when its user id was not seen before.
   */
  lemma DedupAppend(a: seq<MemberRequest>, x: MemberRequest)
    ensures DedupByUserId(a + [x]) == DedupByUserId(a) + (if HasId(a, x.userId) then [] else [x])
  {
    KeepFirstFromPrefix(a, x, 0);
    KeepFirstFromLast(a, x);
  }

  /** The filter keeps the same user ids as its input. */
  lemma {:induction false} DedupSameIds(a: seq<MemberRequest>, id: string)
    ensures HasId(DedupByUserId(a), id) <==> HasId(a, id)
    decreases |a|
  {
    if a == [] {
      assert DedupByUserId(a) == [];
    } else {
      var init, x := a[..|a| - 1], a[|a| - 1];
      assert a == init + [x];
      DedupSameIds(init, id);
      DedupAppend(init, x);
      HasIdAppend(init, x, id);
      var d0 := DedupByUserId(init);
      if HasId(init, x.userId) {
        assert DedupByUserId(a) == d0;
      } else {
        HasIdAppend(d0, x, id);
      }
    }
  }

  /** The user ids of a list with one more entry. */
  lemma HasIdAppend(a: seq<MemberRequest>, x: MemberRequest, id: string)
    ensures HasId(a + [x], id) <==> HasId(a, id) || x.userId == id
  {
    var b := a + [x];
    if HasId(b, id) && !HasId(a, id) {
      var k :| 0 <= k < |b| && b[k].userId == id;
      assert k < |a| ==> a[k].userId == id;
    }
    if HasId(a, id) {
      var k :| 0 <= k < |a| && a[k].userId == id;
      assert b[k].userId == id;
    }
    if x.userId == id {
      assert b[|a|].userId == id;
    }
  }

  /** The filter keeps no two entries with the same user id. */
  lemma {:induction false} DedupNoDuplicates(a: seq<MemberRequest>)
    ensures NoDuplicateIds(DedupByUserId(a))
    decreases |a|
  {
    if a != [] {
      var init, x := a[..|a| - 1], a[|a| - 1];
      assert a == init + [x];
      DedupNoDuplicates(init);
      DedupAppend(init, x);
      DedupSameIds(init, x.userId);
      var d0, d := DedupByUserId(init), DedupByUserId(a);
      forall j, k | 0 <= j < k < |d|
        ensures d[j].userId != d[k].userId
      {
        assert d[j] == d0[j];
        if k == |d0| {
          assert d[k] == x;
        } else {
          assert d[k] == d0[k];
        }
      }
    }
  }

  /** The filter keeps only entries of its input, and at most as many. */
  lemma {:induction false} DedupSubsequence(a: seq<MemberRequest>)
    ensures forall j :: 0 <= j < |DedupByUserId(a)| ==> DedupByUserId(a)[j] in a
    ensures |DedupByUserId(a)| <= |a|
    decreases |a|
  {
    if a == [] {
      assert DedupByUserId(a) == [];
    } else {
      var init, x := a[..|a| - 1], a[|a| - 1];
      assert a == init + [x];
      DedupSubsequence(init);
      DedupAppend(init, x);
      var d0, d := DedupByUserId(init), DedupByUserId(a);
      forall j | 0 <= j < |d|
        ensures d[j] in a
      {
        if j < |d0| {
          assert d[j] == d0[j];
        }
      }
    }
  }

  /** The filter keeps entries in the order in which their user ids first occur. */
  lemma {:induction false} DedupFirstOccurrenceOrder(a: seq<MemberRequest>)
    ensures var d := DedupByUserId(a);
      forall j, k :: 0 <= j < k < |d| ==> FindIndex(a, d[j].userId) < FindIndex(a, d[k].userId)
    decreases |a|
  {
    if a != [] {
      var init, x := a[..|a| - 1], a[|a| - 1];
      assert a == init + [x];
      DedupFirstOccurrenceOrder(init);
      DedupAppend(init, x);
      var d0, d := DedupByUserId(init), DedupByUserId(a);
      forall j, k | 0 <= j < k < |d|
        ensures FindIndex(a, d[j].userId) < FindIndex(a, d[k].userId)
      {
        assert d[j] == d0[j];
        assert HasId(d0, d0[j].userId);
        DedupSameIds(init, d0[j].userId);
        FindIndexAppend(init, x, d[j].userId);
        FindIndexAppend(init, x, d[k].userId);
        if k == |d0| {
          assert d[k] == x && !HasId(init, x.userId);
        } else {
          assert d[k] == d0[k];
          assert HasId(d0, d0[k].userId);
          DedupSameIds(init, d0[k].userId);
        }
      }
    }
  }

  lemma RequestsHaveIds(ids: seq<string>, id: string)
    ensures HasId(Requests(ids), id) <==> id in ids
  {
    if id in ids {
      var k :| 0 <= k < |ids| && ids[k] == id;
      assert Requests(ids)[k].userId == id;
    }
  }

  /** A user is in the member list exactly when the lookup returned them or they are the requester. */
  lemma MembersCover(membersIds: seq<string>, requester: string, id: string)
    ensures HasId(Members(membersIds, requester), id) <==> id in membersIds || id == requester
  {
    var self := MemberRequest(requester, CallMemberRole);
    var a := Requests(membersIds) + [self];
    DedupSameIds(a, id);
    RequestsHaveIds(membersIds, id);
    if id == requester {
      assert a[|a| - 1].userId == id;
    }
    if HasId(a, id) && id != requester {
      var k :| 0 <= k < |a| && a[k].userId == id;
      assert k < |membersIds|;
      assert Requests(membersIds)[k].userId == id;
    }
    if id in membersIds {
      var k :| 0 <= k < |Requests(membersIds)| && Requests(membersIds)[k].userId == id;
      assert a[k].userId == id;
    }
  }

  /**
   * Every member has the role `call_member`; the list is never empty and has at
   * most one entry more than the lookup returned.
   */
  lemma MembersShape(membersIds: seq<string>, requester: string)
    ensures var m := Members(membersIds, requester);
      && (forall j :: 0 <= j < |m| ==> m[j].role == CallMemberRole)
      && 1 <= |m| <= |membersIds| + 1
  {
    var self := MemberRequest(requester, CallMemberRole);
    var a := Requests(membersIds) + [self];
    var m := Members(membersIds, requester);
    DedupSubsequence(a);
    forall j | 0 <= j < |m|
      ensures m[j].role == CallMemberRole
    {
      assert m[j] in a;
    }
    MembersCover(membersIds, requester, requester);
  }

  /**
   * The requester's own entry comes last when the lookup did not return them;
   * otherwise the list is the deduplicated participant list alone.
   */
  lemma MembersRequesterPlacement(membersIds: seq<string>, requester: string)
    ensures requester !in membersIds ==>
      Members(membersIds, requester)
      == DedupByUserId(Requests(membersIds)) + [MemberRequest(requester, CallMemberRole)]
    ensures requester in membersIds ==>
      Members(membersIds, requester) == DedupByUserId(Requests(membersIds))
  {
    DedupAppend(Requests(membersIds), MemberRequest(requester, CallMemberRole));
    RequestsHaveIds(membersIds, requester);
  }

  /** Members appear in the order in which their ids first occur in the lookup result followed by the requester. */
  lemma MembersOrder(membersIds: seq<string>, requester: string)
    ensures var m := Members(membersIds, requester);
      var all := Requests(membersIds + [requester]);
      forall j, k :: 0 <= j < k < |m| ==> FindIndex(all, m[j].userId) < FindIndex(all, m[k].userId)
  {
    var a := Requests(membersIds) + [MemberRequest(requester, CallMemberRole)];
    assert a == Requests(membersIds + [requester]);
    DedupFirstOccurrenceOrder(a);
  }

  // ---------------------------------------------------------------------
  // createMeeting

  /** The form fields when "Create Meeting" is pressed. */
  datatype MeetingForm = MeetingForm(description: string, startTime: string, participants: string)

  /** The `getOrCreate` request: the call type and id, and the call's `data`. */
  datatype CallRequest = CallRequest(
    callType: CallType,
    id: string,
    startsAt: int,
    members: seq<MemberRequest>,
    description: string)

  /**
   * The collaborators the page calls: the `getUserId` server action (None when
   * it throws), the reading of the start-time field as a time value (None when
   * it is not a valid date, so that `toISOString` throws), and whether the call
   * service accepts `getOrCreate`.
   */
  datatype Services = Services(
    getUserId: seq<string> -> Option<seq<string>>,
    parseDate: string -> Option<int>,
    getOrCreate: CallRequest -> bool)

  datatype Failure = LookupFailed | InvalidStartTime | Rejected(request: CallRequest)

  /**
   * NotReady: no video client or no signed-in user, and nothing is done.
   * Failed: the step that threw; the page shows its generic alert.
   * Created: the call the page keeps with `setCall`.
   */
  datatype Outcome = NotReady | Failed(failure: Failure) | Created(call: CallRequest)

  /** `startTimeInput || Date.now()` as a time value: the field when it is filled in, else now. */
  function StartTime(startTimeInput: string, now: int, parseDate: string -> Option<int>): Option<int> {
    if JsString.Truthy(startTimeInput) then parseDate(startTimeInput) else Some(now)
  }

  /**
   * `request` is the one `createMeeting` builds: the call type chosen from the
   * participant field, the fresh id, the looked-up members with the requester,
   * the description, and the start (now when the field is empty, else the
   * field's time).
   */
  predicate IsRequestFor(request: CallRequest, form: MeetingForm, uuid: string, ids: seq<string>,
                         requester: string, now: int, parseDate: string -> Option<int>) {
    && request.callType == ChooseCallType(form.participants)
    && request.id == uuid
    && request.description == form.description
    && request.members == Members(ids, requester)
    && (form.startTime == "" ==> request.startsAt == now)
    && (form.startTime != "" ==> parseDate(form.startTime) == Some(request.startsAt))
  }

  /** `createMeeting`, from the guard to `setCall` or the alert. */
  function CreateMeeting(hasClient: bool, user: Option<string>, uuid: string, form: MeetingForm,
                         now: int, services: Services): (o: Outcome)
    ensures o.NotReady? <==> !hasClient || user.None?
    ensures o == Failed(LookupFailed) <==>
      hasClient && user.Some? && services.getUserId(ParticipantEmails(form.participants)).None?
    ensures o == Failed(InvalidStartTime) <==>
      hasClient && user.Some? && services.getUserId(ParticipantEmails(form.participants)).Some?
      && form.startTime != "" && services.parseDate(form.startTime).None?
    ensures o.Created? ==>
      var ids := services.getUserId(ParticipantEmails(form.participants));
      && ids.Some?
      && IsRequestFor(o.call, form, uuid, ids.value, user.value, now, services.parseDate)
      && services.getOrCreate(o.call)
    ensures o.Failed? && o.failure.Rejected? ==>
      var ids := services.getUserId(ParticipantEmails(form.participants));
      && ids.Some?
      && IsRequestFor(o.failure.request, form, uuid, ids.value, user.value, now, services.parseDate)
      && !services.getOrCreate(o.failure.request)
    ensures o.Created? ==>
      NoDuplicateIds(o.call.members) && HasId(o.call.members, user.value)
  {
    if !hasClient || user.None? then NotReady
    else
      var callType := ChooseCallType(form.participants);
      match services.getUserId(ParticipantEmails(form.participants))
      case None => Failed(LookupFailed)
      case Some(ids) =>
        var members := Members(ids, user.value);
        match StartTime(form.startTime, now, services.parseDate)
        case None => Failed(InvalidStartTime)
        case Some(startsAt) =>
          var request := CallRequest(callType, uuid, startsAt, members, form.description);
          if services.getOrCreate(request) then Created(request) else Failed(Rejected(request))
  }

  /**
   * Once the lookup and the start time succeed, the outcome is decided by the
   * call service alone: the request it is given is the same either way, and
   * the page keeps the call exactly when the service accepts it.
   */
  lemma CreateMeetingDecidedByService(hasClient: bool, user: Option<string>, uuid: string,
                                      form: MeetingForm, now: int, services: Services,
                                      request: CallRequest)
    requires hasClient && user.Some?
    requires var ids := services.getUserId(ParticipantEmails(form.participants));
      ids.Some? && IsRequestFor(request, form, uuid, ids.value, user.value, now, services.parseDate)
    ensures CreateMeeting(hasClient, user, uuid, form, now, services)
            == if services.getOrCreate(request) then Created(request) else Failed(Rejected(request))
  {
    var o := CreateMeeting(hasClient, user, uuid, form, now, services);
    assert !o.NotReady? && o != Failed(LookupFailed) && o != Failed(InvalidStartTime);
    var r := if o.Created? then o.call else o.failure.request;
    assert r == request;
  }

  // ---------------------------------------------------------------------
  // Invitation link and mailto invitation

  /** How a template literal prints the base URL setting: its text, or "undefined" when unset. */
  function BaseText(baseUrl: Option<string>): string {
    if baseUrl.Some? then baseUrl.value else "undefined"
  }

  /** `${process.env.NEXT_PUBLIC_BASE_URL}/meeting/${call.id}`. */
  function MeetLink(baseUrl: Option<string>, callId: string): (link: string)
    ensures |BaseText(baseUrl)| <= |link| && link[..|BaseText(baseUrl)|] == BaseText(baseUrl)
    ensures callId != "" && '/' !in callId ==>
              MeetingRoute.RouteId(link[|BaseText(baseUrl)|..]) == Some(callId)
  {
    var link := BaseText(baseUrl) + MeetingRoute.MeetingPath(callId);
    assert link[|BaseText(baseUrl)|..] == MeetingRoute.MeetingPath(callId);
    MeetingRoute.RouteOfMeetingPath(callId);
    link
  }

  /** An optional string that a template condition treats as true: given and not empty. */
  predicate Present(text: Option<string>) {
    text.Some? && JsString.Truthy(text.value)
  }

  /** The invitation subject; the formatted start follows "meeting" with no space. */
  function Subject(startsAtText: Option<string>): string {
    "Join my meeting" + (if Present(startsAtText) then "at " + startsAtText.value else "")
  }

  /** The first sentence of every invitation body, with its trailing space. */
  function Greeting(meetingLink: string): string {
    "join my meeting at " + meetingLink + ". "
  }

  function StartParagraph(startsAtText: Option<string>): string {
    if Present(startsAtText) then "\n\nThe meeting starts at " + startsAtText.value + "." else ""
  }

  function DescriptionParagraph(description: Option<string>): string {
    if Present(description) then "\n\nDescription: " + description.value else ""
  }

  /** The invitation body. */
  function Body(meetingLink: string, startsAtText: Option<string>, description: Option<string>): string {
    Greeting(meetingLink) + StartParagraph(startsAtText) + DescriptionParagraph(description)
  }

  /** The mailto URI with an empty recipient and percent-encoded `subject` and `body` fields. */
  function InvitationUri(subject: string, body: string): string {
    "mailto:?subject=" + UriComponent.Encode(subject) + "&body=" + UriComponent.Encode(body)
  }

  /** The two header fields of an invitation URI read back as the subject and body. */
  lemma InvitationUriFields(subject: string, body: string)
    ensures Mailto.Headers(InvitationUri(subject, body))
            == Some([Mailto.Header("subject", subject), Mailto.Header("body", body)])
  {
    FieldNamesUnescaped();
    Mailto.TwoFieldUri("subject", subject, "body", body);
    InvitationUriSpelling(UriComponent.Encode(subject), UriComponent.Encode(body));
  }

  /** The invitation URI leaves the recipient empty: `?` directly follows `mailto:`. */
  lemma InvitationWithoutRecipient(subject: string, body: string)
    ensures var uri := InvitationUri(subject, body); |uri| > 7 && uri[..8] == "mailto:?"
  {
    InvitationPrefix(UriComponent.Encode(subject), UriComponent.Encode(body));
  }

  lemma InvitationPrefix(e1: string, e2: string)
    ensures var uri := "mailto:?subject=" + e1 + "&body=" + e2; |uri| > 7 && uri[..8] == "mailto:?"
  {
    var uri := "mailto:?subject=" + e1 + "&body=" + e2;
    assert uri[..16] == "mailto:?subject=";
  }

  lemma FieldNamesUnescaped()
    ensures forall i :: 0 <= i < |"subject"| ==> UriComponent.IsUnescaped("subject"[i])
    ensures forall i :: 0 <= i < |"body"| ==> UriComponent.IsUnescaped("body"[i])
  {
  }

  lemma InvitationUriSpelling(e1: string, e2: string)
    ensures "mailto:?" + "subject" + "=" + e1 + "&" + "body" + "=" + e2
            == "mailto:?subject=" + e1 + "&body=" + e2
  {
  }

  /** Every character is unescaped or one of the delimiters `:?=&%`. */
  predicate UriSafe(s: string) {
    forall i :: 0 <= i < |s| ==> UriComponent.IsUnescaped(s[i]) || s[i] in ":?=&%"
  }

  lemma UriSafeConcat(a: string, b: string)
    requires UriSafe(a) && UriSafe(b)
    ensures UriSafe(a + b)
  {
    forall i | 0 <= i < |a + b|
      ensures UriComponent.IsUnescaped((a + b)[i]) || (a + b)[i] in ":?=&%"
    {
      if i >= |a| {
        assert (a + b)[i] == b[i - |a|];
      }
    }
  }

  lemma InvitationDelimitersSafe()
    ensures UriSafe("mailto:?subject=") && UriSafe("&body=")
  {
  }

  /** An invitation URI holds only unescaped characters and the delimiters `:?=&%`. */
  lemma InvitationUriSafe(subject: string, body: string)
    ensures UriSafe(InvitationUri(subject, body))
  {
    var e1, e2 := UriComponent.Encode(subject), UriComponent.Encode(body);
    InvitationDelimitersSafe();
    UriSafeConcat("mailto:?subject=", e1);
    UriSafeConcat("mailto:?subject=" + e1, "&body=");
    UriSafeConcat("mailto:?subject=" + e1 + "&body=", e2);
  }

  /**
   * `getMailToLink`, given the start already formatted for display: a mailto
   * URI with no recipient, whose only header fields are `subject` and `body`
   * and read back as the subject and body, and which holds nothing but
   * URI-safe characters.
   */
  function MailToLink(meetingLink: string, startsAtText: Option<string>, description: Option<string>): (uri: string)
    ensures Mailto.Headers(uri) == Some([Mailto.Header("subject", Subject(startsAtText)),
                                         Mailto.Header("body", Body(meetingLink, startsAtText, description))])
    ensures |uri| > 7 && uri[..8] == "mailto:?"
    ensures UriSafe(uri)
  {
    var subject := Subject(startsAtText);
    var body := Body(meetingLink, startsAtText, description);
    InvitationUriFields(subject, body);
    InvitationUriSafe(subject, body);
    InvitationWithoutRecipient(subject, body);
    InvitationUri(subject, body)
  }

  /** The subject is the bare "Join my meeting" exactly when no start is given. */
  lemma SubjectWithoutStart(startsAtText: Option<string>)
    ensures Subject(startsAtText) == "Join my meeting" <==> !Present(startsAtText)
    ensures Present(startsAtText) ==>
      Subject(startsAtText)[..15] == "Join my meeting" && Subject(startsAtText)[15..] == "at " + startsAtText.value
  {
    if Present(startsAtText) {
      assert |Subject(startsAtText)| > 15;
    }
  }

  /**
   * The body is the link sentence, then the start paragraph exactly when a
   * start is given, then the description paragraph exactly when a non-empty
   * description is given; it is the link sentence alone exactly when neither is.
   */
  lemma BodyParagraphs(meetingLink: string, startsAtText: Option<string>, description: Option<string>)
    ensures var body := Body(meetingLink, startsAtText, description);
      var greeting := Greeting(meetingLink);
      && greeting <= body
      && (Present(startsAtText) ==>
            body == greeting + "\n\nThe meeting starts at " + startsAtText.value + "."
                    + DescriptionParagraph(description))
      && (!Present(startsAtText) ==> body == greeting + DescriptionParagraph(description))
      && (Present(description) ==> EndsWith(body, "\n\nDescription: " + description.value))
      && (body == greeting <==> !Present(startsAtText) && !Present(description))
  {
    var greeting := Greeting(meetingLink);
    var start := StartParagraph(startsAtText);
    var desc := DescriptionParagraph(description);
    assert Body(meetingLink, startsAtText, description) == greeting + start + desc;
    if !Present(startsAtText) {
      assert greeting + start == greeting;
    }
    if Present(startsAtText) || Present(description) {
      assert |start + desc| > 0;
    }
  }

  predicate EndsWith(s: string, suffix: string) {
    |suffix| <= |s| && s[|s| - |suffix|..] == suffix
  }

  /**
   * The decoded fields of the invitation for a meeting with neither a start nor
   * a description: the bare subject, and the link sentence with its trailing space.
   */
  lemma LinkOnlyInvitation(meetingLink: string)
    ensures Subject(None) == "Join my meeting"
    ensures Body(meetingLink, None, None) == "join my meeting at " + meetingLink + ". "
  {
    assert Subject(None) == "Join my meeting" + "";
    assert Body(meetingLink, None, None) == Greeting(meetingLink) + "" + "";
  }

  /** The decoded body of the invitation for a meeting with a description but no start. */
  lemma DescribedInvitation(meetingLink: string, description: string)
    requires description != ""
    ensures Body(meetingLink, None, Some(description))
            == "join my meeting at " + meetingLink + ". \n\nDescription: " + description
  {
    assert Body(meetingLink, None, Some(description))
           == Greeting(meetingLink) + "" + ("\n\nDescription: " + description);
  }
}
