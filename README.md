# meetingApp: meeting creation and meeting listing, modelled in Dafny

meetingApp is a Next.js front end for video meetings. This project models the
logic of its two pages that create and list meetings. Everything around that
logic is left out: rendering, the video SDK, the identity provider and the
clock.

**The meeting-creation page** (`app/ClientMeetingPage.tsx`) is modelled in
`client_meeting_page.dfy`:
- It picks the call type from the raw participant field: `private-meeting`
  when the field is non-empty, `default` otherwise.
- It splits the field on commas and trims every token.
- It builds the member list: the looked-up participants, then the requester,
  deduplicated by user id with the first occurrence kept.
- It sends the `getOrCreate` request. Every failure path ends in the same
  alert.
- It builds the invitation link `<base>/meeting/<id>`.
- It builds the `mailto:` invitation with a percent-encoded subject and body.

**The "My Meetings" page** (`app/meetings/MyMeetingsPage.tsx`) is modelled in
`my_meetings_page.dfy`:
- It asks the call service for the user's calls that have a start time,
  latest start first. It asks nothing when there is no client or no user id.
- For each call it shows the link `/meeting/<id>` and the two labels
  " (Upcomming)" and "(Ended)".

**Supporting modules:**
- `js_string.dfy`: the ECMAScript behaviour the pages rely on, namely string
  truthiness, `split` with a one-character separator (with `join` as its
  inverse), and `trim` over the WhiteSpace and LineTerminator code points of
  ECMA-262.
- `uri_component.dfy`: `encodeURIComponent` (UTF-8, then `%XY` with
  upper-case hex, per ECMA-262 section 19.2.6.5), together with
  `decodeURIComponent` as its partner.
- `mailto.dfy`: how a mail client reads the header fields of a `mailto:` URI
  (section 2 of RFC 6068), reporting a non-empty recipient part as a leading
  `to` field.
- `meeting_route.dfy`: the `/meeting/[id]` route that both pages link to.

With these modules, the invitation link's contract says what a reader of the
URI gets back, not how the URI is spelled.

**Where the model follows the code as written:**
- The call type is chosen from the untrimmed field. A field of blanks or
  commas therefore makes a private meeting whose e-mail tokens are all empty.
- `"".split(",")` is `[""]`, so an empty field still sends one empty address
  to the lookup.
- The subject has no space between "meeting" and "at".
- The body's link sentence ends with ". ", including its trailing space.

## Model

| member | source | states |
|---|---|---|
| `ClientMeetingPage.ChooseCallType` | app/ClientMeetingPage.tsx:29 | the call is private exactly when the raw participant field is non-empty; the type's name is `private-meeting` or `default` accordingly |
| `ClientMeetingPage.BlankParticipantsStillPrivate` | app/ClientMeetingPage.tsx:29-34 | a non-empty field of blanks and commas yields only empty e-mail tokens yet still a private call |
| `ClientMeetingPage.ParticipantEmails` | app/ClientMeetingPage.tsx:34 | one token per comma plus one, none containing a comma, each without surrounding white space; the empty field gives the single token `""` |
| `ClientMeetingPage.ParticipantEmailsOfList` | app/ClientMeetingPage.tsx:34 | addresses typed comma-separated, each padded with blanks, are read back as exactly those addresses in order |
| `JsString.Split` | app/ClientMeetingPage.tsx:34 | `split` yields one part more than there are separators, and no part contains the separator |
| `JsString.JoinSplit` | app/ClientMeetingPage.tsx:34 | re-joining the parts of a split gives back the original string |
| `JsString.SplitJoin` | app/ClientMeetingPage.tsx:34 | splitting a join of separator-free parts gives back the parts |
| `JsString.Trim` | app/ClientMeetingPage.tsx:34 | the result is a contiguous slice of the input with only white space cut off either side, and it has no white space at either end |
| `JsString.TrimFixedPoint` | app/ClientMeetingPage.tsx:34 | trimming leaves a string unchanged exactly when it has no white space at either end |
| `JsString.TrimIdempotent` | app/ClientMeetingPage.tsx:34 | trimming twice is trimming once |
| `JsString.TrimAllWhiteSpace` | app/ClientMeetingPage.tsx:34 | trimming gives the empty string exactly when the input is all white space |
| `ClientMeetingPage.Requests` | app/ClientMeetingPage.tsx:37 | one `call_member` entry per looked-up id, in order |
| `ClientMeetingPage.FindIndex` | app/ClientMeetingPage.tsx:37 | `findIndex` returns the first index with that user id, or -1 exactly when no entry has it |
| `ClientMeetingPage.DedupAppend` | app/ClientMeetingPage.tsx:37 | filtering a list with one more entry gives the earlier result, followed by the new entry exactly when its user id is new |
| `ClientMeetingPage.DedupSameIds` | app/ClientMeetingPage.tsx:37 | the `findIndex` filter keeps exactly the user ids of its input |
| `ClientMeetingPage.DedupNoDuplicates` | app/ClientMeetingPage.tsx:37 | after the filter no two entries share a user id |
| `ClientMeetingPage.DedupSubsequence` | app/ClientMeetingPage.tsx:37 | the filter keeps only entries of its input and never more of them |
| `ClientMeetingPage.DedupFirstOccurrenceOrder` | app/ClientMeetingPage.tsx:37 | kept entries are in the order in which their user ids first occur in the input |
| `ClientMeetingPage.DedupByUserId` | app/ClientMeetingPage.tsx:37 | defined as `filter((v, i, a) => a.findIndex(...) === i)` over the whole list; its properties are the `DedupAppend`, `DedupSameIds`, `DedupNoDuplicates`, `DedupSubsequence` and `DedupFirstOccurrenceOrder` rows |
| `ClientMeetingPage.Members` | app/ClientMeetingPage.tsx:37 | the whole member pipeline: the looked-up ids as `call_member` entries, then the requester, deduplicated; its result has no repeated user id and holds the requester (further properties in the `Members*` rows) |
| `ClientMeetingPage.MembersCover` | app/ClientMeetingPage.tsx:37 | a user is a member exactly when the lookup returned them or they are the requester |
| `ClientMeetingPage.MembersShape` | app/ClientMeetingPage.tsx:37 | every member has role `call_member`; the list is non-empty and at most one longer than the lookup result |
| `ClientMeetingPage.MembersRequesterPlacement` | app/ClientMeetingPage.tsx:37 | the requester comes last when the lookup did not return them; otherwise the list is the deduplicated lookup result alone |
| `ClientMeetingPage.MembersOrder` | app/ClientMeetingPage.tsx:37 | members appear in first-occurrence order of the lookup result followed by the requester |
| `ClientMeetingPage.StartTime` | app/ClientMeetingPage.tsx:39 | defined as `startTimeInput \|\| Date.now()` read as a time value: now when the field is empty, else the field parsed, None when it is not a valid date; its effect is stated in `CreateMeeting` |
| `ClientMeetingPage.IsRequestFor` | app/ClientMeetingPage.tsx:29-47 | defined as the fields of the `getOrCreate` request: the chosen call type, the fresh id, the description, `Members` of the looked-up ids and the requester, and the start |
| `ClientMeetingPage.CreateMeeting` | app/ClientMeetingPage.tsx:21-54 | nothing happens without a client or user; a failed lookup and an unparsable non-empty start time each end in the alert path, exactly in those cases; a created call and a rejected request are both the request `IsRequestFor` describes, created exactly when the service accepts it; a created call holds the requester once and no user twice |
| `ClientMeetingPage.CreateMeetingDecidedByService` | app/ClientMeetingPage.tsx:41-49 | once lookup and start time succeed, the outcome is `Created` of the built request when the service accepts it and the alert path with that same request otherwise |
| `ClientMeetingPage.MeetLink` | app/ClientMeetingPage.tsx:194 | the link is the base URL text (`undefined` when unset) followed by a path that routes back to the call id |
| `MeetingRoute.MeetingPath` | app/meetings/MyMeetingsPage.tsx:54 | the path is `/meeting/` followed by the id, and nothing else |
| `MeetingRoute.RouteOfMeetingPath` | app/meetings/MyMeetingsPage.tsx:54 | the `[id]` route reads the id back from a meeting path exactly when the id is one non-empty path segment |
| `ClientMeetingPage.MailToLink` | app/ClientMeetingPage.tsx:225-241 | the URI names no recipient (it starts `mailto:?`), and a mail client reading it finds exactly two header fields and no `to`, the subject and the body, with their text unchanged; the URI holds only unescaped characters and `:?=&%` |
| `ClientMeetingPage.Subject` | app/ClientMeetingPage.tsx:237 | defined as "Join my meeting" followed by "at " and the start when a start is given; stated by `SubjectWithoutStart` and `LinkOnlyInvitation` |
| `ClientMeetingPage.Body` | app/ClientMeetingPage.tsx:238 | defined as the link sentence, start paragraph and description paragraph in that order; stated by `BodyParagraphs`, `LinkOnlyInvitation` and `DescribedInvitation` |
| `ClientMeetingPage.InvitationUri` | app/ClientMeetingPage.tsx:240 | defined as `mailto:?subject=` and `&body=` with the encoded subject and body; stated by `InvitationUriFields` and `InvitationUriSafe` |
| `ClientMeetingPage.InvitationUriFields` | app/ClientMeetingPage.tsx:240 | the `subject` and `body` fields of the mailto URI decode to the subject and body it was built from |
| `ClientMeetingPage.InvitationUriSafe` | app/ClientMeetingPage.tsx:240 | the mailto URI contains nothing but unescaped characters and the delimiters `:?=&%` |
| `ClientMeetingPage.InvitationWithoutRecipient` | app/ClientMeetingPage.tsx:240 | the invitation URI has an empty recipient: `?` directly follows `mailto:` |
| `ClientMeetingPage.SubjectWithoutStart` | app/ClientMeetingPage.tsx:237 | the subject is the bare "Join my meeting" exactly when no start is given; otherwise "at " and the start follow "meeting" with no space |
| `ClientMeetingPage.BodyParagraphs` | app/ClientMeetingPage.tsx:238 | the body is the link sentence, then the start paragraph exactly when a start is given, then the description paragraph exactly when a non-empty description is given; it is the link sentence alone exactly when neither is given |
| `ClientMeetingPage.LinkOnlyInvitation` | app/ClientMeetingPage.tsx:237-238 | with neither start nor description the subject is "Join my meeting" and the body is the link sentence with its trailing space |
| `ClientMeetingPage.DescribedInvitation` | app/ClientMeetingPage.tsx:238 | with a description and no start the description paragraph follows the link sentence directly |
| `UriComponent.Encode` | app/ClientMeetingPage.tsx:240 | `encodeURIComponent` output holds only unescaped characters and `%` |
| `UriComponent.EncodePercentEncoded` | app/ClientMeetingPage.tsx:240 | every `%` in the output starts an escape of two upper-case hex digits |
| `UriComponent.EncodeUnescaped` | app/ClientMeetingPage.tsx:240 | a string of unescaped characters is its own encoding |
| `UriComponent.Utf8` | app/ClientMeetingPage.tsx:240 | each code point takes one to four UTF-8 bytes, one exactly for ASCII |
| `UriComponent.Utf8RoundTrip` | app/ClientMeetingPage.tsx:240 | the lead byte announces the sequence length, and UTF-8 decoding gives back the code point |
| `UriComponent.DecodeEncode` | app/ClientMeetingPage.tsx:240 | `decodeURIComponent(encodeURIComponent(s)) == s` for every string |
| `Mailto.EncodedField` | app/ClientMeetingPage.tsx:240 | a `name=encoded-value` field reads back as that name and value |
| `Mailto.TwoFieldUri` | app/ClientMeetingPage.tsx:240 | a mailto URI with an empty recipient and two encoded fields reads back as those two header fields, in order |
| `Mailto.NoRecipient` | app/ClientMeetingPage.tsx:240 | a mailto URI whose header fields, read with a non-empty recipient as a leading `to` field (section 2 of RFC 6068), include no `to` has an empty recipient: it is `mailto:` alone or `mailto:` followed by `?` |
| `MyMeetingsPage.LoadCallsQuery` | app/meetings/MyMeetingsPage.tsx:16-31 | no query exactly when there is no client or no (non-empty) user id; otherwise the query sorts by `starts_at` descending |
| `MyMeetingsPage.LoadCallsFilter` | app/meetings/MyMeetingsPage.tsx:23-30 | the filter holds of a call exactly when it has a start time and the user created it or is a member |
| `MyMeetingsPage.Select` | app/meetings/MyMeetingsPage.tsx:21-31 | the calls a condition selects are exactly the stored calls it holds of |
| `MyMeetingsPage.ListedCalls` | app/meetings/MyMeetingsPage.tsx:21-32 | the one page of results the listing query reads holds only the user's own calls that have a start time; such a call left off the page starts no later than every listed call; when the page holds the whole answer, it holds exactly those calls |
| `MyMeetingsPage.UpcomingListedFirst` | app/meetings/MyMeetingsPage.tsx:22 | on a correct page sorted latest start first, every upcoming meeting precedes every meeting that is not upcoming |
| `MyMeetingsPage.Entry` | app/meetings/MyMeetingsPage.tsx:53-67 | the entry links to the call's meeting page, is upcoming exactly when its start is strictly after now, ended exactly when it has an end time, and shows the call's own description |
| `MyMeetingsPage.InFuture` | app/meetings/MyMeetingsPage.tsx:56 | defined as: a start is given and it is strictly after now; stated by `Entry` and `UpcomingIsStrict` |
| `MyMeetingsPage.HasEnded` | app/meetings/MyMeetingsPage.tsx:58 | defined as: an end time is given; stated by `Entry` and `FlagsIndependent` |
| `MyMeetingsPage.Labels` | app/meetings/MyMeetingsPage.tsx:64-65 | defined as " (Upcomming)" then "(Ended)", each when its flag holds; stated by `BothLabels` |
| `MyMeetingsPage.UpcomingIsStrict` | app/meetings/MyMeetingsPage.tsx:56 | a meeting starting exactly now is not upcoming, and a meeting upcoming now was upcoming at every earlier time |
| `MyMeetingsPage.FlagsIndependent` | app/meetings/MyMeetingsPage.tsx:56-58 | the "Ended" label depends only on the end time and the "Upcomming" label only on the start time |
| `MyMeetingsPage.BothLabels` | app/meetings/MyMeetingsPage.tsx:64-65 | an ended call with a future start shows both labels, run together as " (Upcomming)(Ended)" |

## Left out

- `Mailto.Headers` reports a non-empty recipient as one `to` field holding the decoded text; it does not split the address list or merge it with `to=` header fields, which the invitation links never need.
- Rendering, React state and effects are not modelled: the loader, the form
  widgets, the list markup and the re-run of `loadCalls` when the client or
  user changes. `components/CallLayout.tsx`, `hooks/useLoadRecording.tsx`,
  `components/Button.tsx`, `app/layout.tsx` and `app/meetings/page.tsx` are
  not part of this model.
- Services and the clock are parameters:
  - `crypto.randomUUID()` is the `uuid` parameter.
  - The `getUserId` server action, the date parsing behind
    `new Date(...).toISOString()`, and whether the video service accepts
    `getOrCreate` are the function-valued `Services`.
  - `Date.now()` and `new Date()` are the `now` parameter.
- The ISO text of `starts_at` is not modelled. The request carries the
  start as a time value.
- The invitation receives its start already formatted, as optional text.
  `toLocaleString("en-IN", ...)` is not modelled. The page passes
  `call.state.startedAt`, the time the call actually started, not the
  scheduled `starts_at`; the model takes whichever text it is given.
- The `startsAt?.toLocaleString()` text shown in each list entry is not
  modelled.
- Times are integers. A `Date` that is invalid, whose comparisons are always
  false, is not modelled.
- `encodeURIComponent` throws `URIError` on a lone UTF-16 surrogate. That
  path is not modelled: a Dafny `char` is a Unicode scalar value and cannot
  be a lone surrogate.
- `console.log`, `alert` and `navigator.clipboard.writeText` are not
  modelled. The alert path is the `Failed` outcome.
- The call service's evaluation of `queryCalls` is specified, not
  implemented: `Answers` says what a correct first page of results is. The
  page reads only that first page and never asks for the next one, so
  calls beyond it are not listed; the model states which calls those can
  be, not how large a page is.
  - The filter language knows only the fields these pages use.
  - The order is fixed only by the first sort key, `starts_at`. Calls with
    equal start times may come in any order.
