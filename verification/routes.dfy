/** The grievance routes (`server/routes/grievanceRoutes.js`): record
    construction on submission, the access rule for viewing and commenting,
    and the comment and status-update transforms with their 403/404
    decisions. The database is a map from record id to record; the clock, the
    tracking-ID generator and the request body are parameters. */
module GrievanceRoutes {
  import opened Wrappers
  import opened GrievanceRecords
  import A = AiModel
  import S = SentimentAnalysis

  /** The fields of the submission body that the route reads. */
  datatype Submission = Submission(
    subject: string,
    description: string,
    category: string,
    state: string,
    district: string,
    address: string)

  /** The HTTP outcomes the routes decide on. `Invalid` is the 500 that
      follows when `save()` fails the schema's validation; nothing is stored.
      Other server errors are not modelled. */
  datatype Response = Ok(grievance: Grievance) | Created(created: Grievance) | NotFound | Forbidden | Invalid

  /** Mongoose's `required` validator on a `String` path: the empty string fails. */
  predicate Present(s: string) { |s| > 0 }

  /** `POST /`: the record is saved, with the schema's defaults for
      `createdAt`/`updatedAt` being `now`, unless one of its required string
      paths is empty. The user id is never empty. */
  function CreateGrievance(body: Submission, user: User, trackingId: string, now: int): (r: Response)
    ensures r.Created? || r == Invalid
    ensures r == Invalid <==> !Present(trackingId) || !Present(body.subject) || !Present(body.description)
    ensures r.Created? ==>
      && r.created.trackingId == trackingId && r.created.userId == user.id
      && r.created.subject == body.subject && r.created.description == body.description
      && r.created.status == Pending && r.created.urgency == S.Medium && r.created.originalLanguage == "en"
      && r.created.department == A.ClassifyComplaint(body.description).department
      && r.created.tags == A.ClassifyComplaint(body.description).tags
      && r.created.confidenceScore == A.ClassifyComplaint(body.description).confidence
      && r.created.comments == [] && r.created.statusHistory == []
      && r.created.createdAt == now && r.created.updatedAt == now
  {
    var analysis := A.ClassifyComplaint(body.description);
    if !Present(trackingId) || !Present(body.subject) || !Present(body.description) then Invalid
    else
      Created(Grievance(
        trackingId, user.id, body.subject, body.description, "en",
        analysis.department, analysis.tags, analysis.confidence, S.Medium,
        Pending, [], [], now, now))
  }

  /** The submitted `category`, `state`, `district` and `address` are read from
      the body but never stored: two submissions that differ only in those
      fields get the same response. */
  lemma CategoryIgnored(body: Submission, category: string, state: string, district: string, address: string,
                        user: User, trackingId: string, now: int)
    ensures CreateGrievance(body.(category := category, state := state, district := district, address := address),
                            user, trackingId, now)
      == CreateGrievance(body, user, trackingId, now)
  {
  }

  /** The owner and the two admin roles may view a record and comment on it. */
  predicate MayAccess(g: Grievance, user: User) {
    g.userId == user.id || IsAdmin(user.role)
  }

  /** `GET /track/:trackingId`, given the result of the lookup. */
  function Track(lookup: Option<Grievance>, user: User): (r: Response)
    ensures lookup.None? ==> r == NotFound
    ensures lookup.Some? ==> (r == Ok(lookup.value) <==> MayAccess(lookup.value, user))
    ensures lookup.Some? ==> (r == Forbidden <==> !MayAccess(lookup.value, user))
  {
    match lookup
    case None => NotFound
    case Some(g) =>
      if g.userId != user.id && user.role != DepartmentAdmin && user.role != SuperAdmin then Forbidden
      else Ok(g)
  }

  /** `POST /:id/comments`: the response and the store afterwards. An empty
      comment text fails the comment schema's `required` check on `save()`. */
  function AddComment(store: map<string, Grievance>, id: string, user: User, text: string, now: int)
    : (r: (Response, map<string, Grievance>))
    ensures id !in store ==> r == (NotFound, store)
    ensures id in store && !MayAccess(store[id], user) ==> r == (Forbidden, store)
    ensures id in store && MayAccess(store[id], user) && !Present(text) ==> r == (Invalid, store)
    ensures id in store && MayAccess(store[id], user) && Present(text) ==>
      r.0.Created? && r.1.Keys == store.Keys && r.1[id] == r.0.created
      && |r.1[id].comments| == |store[id].comments| + 1
      && r.1[id].comments[..|store[id].comments|] == store[id].comments
      && r.1[id].comments[|store[id].comments|] == Comment(user.id, user.role, text, now)
      && r.1[id].(comments := store[id].comments) == store[id]
    ensures forall k :: k in store && k != id ==> k in r.1 && r.1[k] == store[k]
  {
    if id !in store then (NotFound, store)
    else
      var g := store[id];
      if g.userId != user.id && user.role != DepartmentAdmin && user.role != SuperAdmin then (Forbidden, store)
      else if !Present(text) then (Invalid, store)
      else
        var g' := g.(comments := g.comments + [Comment(user.id, user.role, text, now)]);
        (Created(g'), store[id := g'])
  }

  /** `PUT /:id/status`: the response and the store afterwards. The role is
      checked before the lookup, and any status may follow any status. */
  function UpdateStatus(
    store: map<string, Grievance>, id: string, user: User,
    status: Status, comments: Option<string>, now: int)
    : (r: (Response, map<string, Grievance>))
    ensures !IsAdmin(user.role) ==> r == (Forbidden, store)
    ensures IsAdmin(user.role) && id !in store ==> r == (NotFound, store)
    ensures IsAdmin(user.role) && id in store ==>
      r.0.Ok? && r.1.Keys == store.Keys && r.1[id] == r.0.grievance
      && r.1[id].status == status
      && r.1[id].statusHistory == store[id].statusHistory + [StatusUpdate(status, user.id, user.role, comments, now)]
      && r.1[id].updatedAt == now
      && r.1[id].(status := store[id].status, statusHistory := store[id].statusHistory,
                  updatedAt := store[id].updatedAt) == store[id]
    ensures forall k :: k in store && k != id ==> k in r.1 && r.1[k] == store[k]
  {
    if user.role != DepartmentAdmin && user.role != SuperAdmin then (Forbidden, store)
    else if id !in store then (NotFound, store)
    else
      var g := store[id];
      var g' := g.(
        status := status,
        statusHistory := g.statusHistory + [StatusUpdate(status, user.id, user.role, comments, now)],
        updatedAt := now);
      (Ok(g'), store[id := g'])
  }

  /** No transition guard: an admin can move any record from any status to any
      status, including back out of `resolved` or `rejected`. */
  lemma AnyTransitionAllowed(store: map<string, Grievance>, id: string, user: User, target: Status)
    requires id in store && IsAdmin(user.role)
    ensures UpdateStatus(store, id, user, target, None, 0).0.Ok?
    ensures UpdateStatus(store, id, user, target, None, 0).1[id].status == target
  {
  }

  /** Every entry of a history written by the route names an admin. */
  lemma HistoryWrittenByAdmins(store: map<string, Grievance>, id: string, user: User,
                               status: Status, comments: Option<string>, now: int)
    requires id in store
    requires forall u :: u in store[id].statusHistory ==> IsAdmin(u.updatedByRole)
    ensures var after := UpdateStatus(store, id, user, status, comments, now).1;
      forall u :: u in after[id].statusHistory ==> IsAdmin(u.updatedByRole)
  {
  }

  /** A caller who may not view a record may not comment on it either, and
      the store is untouched. */
  lemma CommentNeedsAccess(store: map<string, Grievance>, id: string, user: User, text: string, now: int)
    requires id in store
    ensures Track(Some(store[id]), user) == Forbidden <==> AddComment(store, id, user, text, now).0 == Forbidden
  {
  }
}
