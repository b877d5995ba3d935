/** The mutating routes of the application, handled one request at a time. */
module Routes {
  import opened Outcomes
  import opened Tables
  import opened Records
  import ClubController
  import EventController

  /** A mutating HTTP request and its payload. */
  datatype Request =
    | StoreClub(clubStore: ClubController.StoreRequest)
    | UpdateClub(id: Id, clubUpdate: ClubController.UpdateRequest)
    | DestroyClub(id: Id)
    | StoreEvent(eventStore: EventController.StoreRequest)
    | UpdateEvent(id: Id, eventUpdate: EventController.UpdateRequest)
    | DestroyEvent(id: Id)

  /** Dispatch a request to its controller action. */
  function Handle(s: State, req: Request): Result<State> {
    match req
    case StoreClub(r) => ClubController.Store(s, r)
    case UpdateClub(id, r) => ClubController.Update(s, id, r)
    case DestroyClub(id) => ClubController.Destroy(s, id)
    case StoreEvent(r) => EventController.Store(s, r)
    case UpdateEvent(id, r) => EventController.Update(s, id, r)
    case DestroyEvent(id) => EventController.Destroy(s, id)
  }

  /** The state after a request: a rejected request leaves it as it was. */
  function Apply(s: State, req: Request): (r: State)
    ensures Handle(s, req).Err? ==> r == s
    ensures Handle(s, req).Ok? ==> r == Handle(s, req).value
  {
    match Handle(s, req)
    case Ok(s') => s'
    case Err(_) => s
  }

  /** Handle the requests in order. */
  function Run(s: State, reqs: seq<Request>): State
    decreases |reqs|
  {
    if reqs == [] then s else Run(Apply(s, reqs[0]), reqs[1..])
  }

  /** The conditions the club routes reject on, and that a rejected request changes
      nothing: a form that fails validation, an update or delete of an unknown club. */
  lemma ClubRejectionsChangeNothing(s: State, req: Request)
    ensures req.StoreClub? && !req.clubStore.valid ==> Apply(s, req) == s
    ensures req.UpdateClub? && (req.id !in s.clubs.rows || !req.clubUpdate.valid) ==> Apply(s, req) == s
    ensures req.DestroyClub? && req.id !in s.clubs.rows ==> Apply(s, req) == s
  {
  }

  /** The conditions the event routes reject on, and that a rejected request changes
      nothing: a form that fails validation or names no existing club, an update or
      delete of an unknown event. */
  lemma EventRejectionsChangeNothing(s: State, req: Request)
    ensures req.StoreEvent? && (!req.eventStore.valid || req.eventStore.clubId !in s.clubs.rows) ==> Apply(s, req) == s
    ensures req.UpdateEvent? && (!req.eventUpdate.valid || req.id !in s.events.rows) ==> Apply(s, req) == s
    ensures req.DestroyEvent? && req.id !in s.events.rows ==> Apply(s, req) == s
  {
  }

  /** Every action preserves the referential invariant. */
  lemma ApplyKeepsConsistent(s: State, req: Request)
    requires Consistent(s)
    ensures Consistent(Apply(s, req))
  {
    match req
    case StoreClub(r) => ClubController.StoreKeepsConsistent(s, r);
    case UpdateClub(id, r) => ClubController.UpdateKeepsConsistent(s, id, r);
    case DestroyClub(id) => ClubController.DestroyKeepsConsistent(s, id);
    case StoreEvent(r) => EventController.StoreKeepsConsistent(s, r);
    case UpdateEvent(id, r) => EventController.UpdateKeepsConsistent(s, id, r);
    case DestroyEvent(id) => EventController.DestroyKeepsConsistent(s, id);
  }

  /** Any sequence of requests preserves the referential invariant. */
  lemma {:induction false} RunKeepsConsistent(s: State, reqs: seq<Request>)
    requires Consistent(s)
    ensures Consistent(Run(s, reqs))
    decreases |reqs|
  {
    if reqs != [] {
      ApplyKeepsConsistent(s, reqs[0]);
      RunKeepsConsistent(Apply(s, reqs[0]), reqs[1..]);
    }
  }

  /** From an empty database and disk, every path any record holds names a blob that is
      on the disk, and no blob is held by two fields. */
  lemma ReachableStatesConsistent(reqs: seq<Request>)
    ensures Consistent(Run(Empty(), reqs))
  {
    RunKeepsConsistent(Empty(), reqs);
  }
}
