/**
 * The `/meeting/<id>` route that both the invitation link and the meeting
 * list point at, and how the dynamic `[id]` segment reads the id back.
 */
module MeetingRoute {
  import opened Wrappers

  const Prefix := "/meeting/"

  /** The path of the page for meeting `id`. */
  function MeetingPath(id: string): (p: string)
    ensures |p| == |Prefix| + |id| && p[..|Prefix|] == Prefix && p[|Prefix|..] == id
  {
    Prefix + id
  }

  /** The `id` parameter of the `/meeting/[id]` route for `path`; None when the path is not that route. */
  function RouteId(path: string): Option<string> {
    if |path| > |Prefix| && path[..|Prefix|] == Prefix && '/' !in path[|Prefix|..]
    then Some(path[|Prefix|..])
    else None
  }

  /** The page for `id` routes back to `id` exactly when `id` is one non-empty path segment. */
  lemma RouteOfMeetingPath(id: string)
    ensures RouteId(MeetingPath(id)) == (if id != "" && '/' !in id then Some(id) else None)
  {
  }
}
