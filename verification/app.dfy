/** The application store and its request handling: every admin route runs
    behind the `login_required` gate, which lets a request through only when
    the session carries `logged_in`. */
module App {
  import opened Results
  import opened Tables
  import opened Accounts
  import Attributes
  import CsvImport

  /** The four tables and the session of one browser. */
  datatype Store = Store(
    admins: Table<Admin>,
    catalog: Attributes.Catalog,
    dataset: Table<CsvImport.Record>,
    session: Session)

  ghost predicate Wf(st: Store) {
    Valid(st.admins) && Attributes.Wf(st.catalog) && Valid(st.dataset)
  }

  /** The uniqueness invariants: usernames, attribute names, and
      (attribute, value) pairs. */
  ghost predicate Invariant(st: Store) {
    Wf(st) && UniqueUsernames(st.admins) && Attributes.Invariant(st.catalog)
  }

  /** The POST requests the model handles. */
  datatype Request =
    | Login(username: string, password: string)
    | Logout
    | Register(username: string, password: string, confirm: string, hashed: string)
    | AddAttribute(nama: string)
    | EditAttribute(id: nat, nama: string)
    | DeleteAttribute(id: nat)
    | AddAttributeValue(idAtribut: nat, nilai: string)
    | EditAttributeValue(id: nat, idAtribut: nat, nilai: string)
    | DeleteAttributeValue(id: nat)
    | ImportCsv(file: Option<CsvImport.Upload>)
    | ViewPage   // a protected page that only reads: dashboard, lists, tree, calculation

  /** Routes decorated with `login_required`. */
  predicate Protected(req: Request) {
    !(req.Login? || req.Logout? || req.Register?)
  }

  datatype Status = Accepted | Rejected | LoginRequired

  datatype Reply = Reply(store: Store, status: Status)

  /** Lifts a catalog handler's outcome into the store. */
  function ApplyCatalog(st: Store, r: Result<Attributes.Catalog, Attributes.CatalogError>): Reply {
    match r
    case Ok(c) => Reply(st.(catalog := c), Accepted)
    case Err(_) => Reply(st, Rejected)
  }

  /** A protected route's handler, reached once the gate has let the
      request through. */
  function Dispatch(st: Store, req: Request): (r: Reply)
    requires Wf(st)
    requires Protected(req)
    ensures Wf(r.store)
    ensures r.status != LoginRequired
    ensures r.store.admins == st.admins && r.store.session == st.session
    ensures r.status == Rejected ==> r.store == st
    ensures !req.ImportCsv? ==> r.store.dataset == st.dataset
    ensures req.ImportCsv? ==> r.store.catalog == st.catalog
    ensures Invariant(st) ==> Invariant(r.store)
  {
    match req
    case AddAttribute(nama) => ApplyCatalog(st, Attributes.AddAttribute(st.catalog, nama))
    case EditAttribute(id, nama) => ApplyCatalog(st, Attributes.EditAttribute(st.catalog, id, nama))
    case DeleteAttribute(id) => ApplyCatalog(st, Attributes.DeleteAttribute(st.catalog, id))
    case AddAttributeValue(a, v) => ApplyCatalog(st, Attributes.AddAttributeValue(st.catalog, a, v))
    case EditAttributeValue(id, a, v) => ApplyCatalog(st, Attributes.EditAttributeValue(st.catalog, id, a, v))
    case DeleteAttributeValue(id) => ApplyCatalog(st, Attributes.DeleteAttributeValue(st.catalog, id))
    case ImportCsv(file) =>
      (match CsvImport.ImportCsv(file)
       case Ok(imported) => Reply(st.(dataset := InsertAll(st.dataset, imported.records)), Accepted)
       case Err(_) => Reply(st, Rejected))
    case ViewPage => Reply(st, Accepted)
  }

  /** One request. `check` is the password-hash verifier. */
  function Step(st: Store, req: Request, check: (string, string) -> bool): (r: Reply)
    requires Wf(st)
    ensures Wf(r.store)
    // the gate: without the session flag a protected route changes nothing
    ensures Protected(req) && !st.session.loggedIn ==> r == Reply(st, LoginRequired)
    ensures Protected(req) && st.session.loggedIn ==> r == Dispatch(st, req) && r.status != LoginRequired
    ensures r.status == LoginRequired ==> Protected(req) && !st.session.loggedIn
    // only login and logout touch the session; login never clears it, logout always does
    ensures !req.Login? && !req.Logout? ==> r.store.session == st.session
    ensures req.Login? && st.session.loggedIn ==> r.store == st
    ensures req.Login? && !st.session.loggedIn ==>
              (r.store.session.loggedIn <==> CredentialsAccepted(st.admins, req.username, req.password, check))
    ensures req.Logout? ==> !r.store.session.loggedIn
    ensures Invariant(st) ==> Invariant(r.store)
  {
    match req
    case Login(u, p) =>
      var s := Accounts.Login(st.admins, st.session, u, p, check);
      Reply(st.(session := s), if s.loggedIn then Accepted else Rejected)
    case Logout =>
      Reply(st.(session := Accounts.Logout(st.session)), Accepted)
    case Register(u, p, c, h) =>
      (match Accounts.Register(st.admins, st.session, u, p, c, h)
       case Ok(admins) => Reply(st.(admins := admins), Accepted)
       case Err(_) => Reply(st, Rejected))
    case _ =>
      if !st.session.loggedIn then Reply(st, LoginRequired) else Dispatch(st, req)
  }

  /** After a logout every protected route answers with the login page and
      leaves the store as it is. */
  lemma LogoutLocksProtectedRoutes(st: Store, req: Request, check: (string, string) -> bool)
    requires Wf(st)
    requires Protected(req)
    ensures var out := Step(st, Logout, check).store;
            Step(out, req, check) == Reply(out, LoginRequired)
  {
  }

  /** A CSV import run with the session flag set grows the dataset by
      exactly the count it reports, and leaves it alone when it is refused. */
  lemma ImportGrowsDatasetByCount(st: Store, file: Option<CsvImport.Upload>, check: (string, string) -> bool)
    requires Wf(st)
    requires st.session.loggedIn
    ensures var r := Step(st, ImportCsv(file), check);
            match CsvImport.ImportCsv(file)
            case Ok(imported) =>
              && r.status == Accepted
              && |r.store.dataset.rows| == |st.dataset.rows| + imported.count
              && forall k | k in st.dataset.rows :: k in r.store.dataset.rows && r.store.dataset.rows[k] == st.dataset.rows[k]
            case Err(_) => r == Reply(st, Rejected)
  {
  }

  /** Any sequence of requests from a store satisfying the invariants ends in
      a store that satisfies them. */
  function Run(st: Store, reqs: seq<Request>, check: (string, string) -> bool): (r: Store)
    requires Wf(st)
    ensures Wf(r)
    ensures Invariant(st) ==> Invariant(r)
    decreases |reqs|
  {
    if reqs == [] then st else Run(Step(st, reqs[0], check).store, reqs[1..], check)
  }
}
