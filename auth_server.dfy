/** Game-server identity: the `X-Server-Token` extractor, which checks the
    header and then looks the token up in the servers table. */
module AuthServer {
  import opened Http
  import opened Sql

  const HEADER_MISSING := "X-Server-Token header missing"
  const HEADER_NOT_ASCII := "X-Server-Token must be ASCII"
  const HEADER_INVALID := "X-Server-Token is invalid"

  /** The authenticated game server a request carries. */
  datatype Server = Server(id: u32)

  datatype ServerRow = ServerRow(serverId: u32, token: seq<byte>)

  /** The servers table as the lookup sees it, or the error the lookup would
      report instead. */
  datatype ServerTable = ServerTable(rows: seq<ServerRow>, failure: Option<string>)

  /** The lookup query: the token goes in as its only bound value. */
  function LookupStatement(token: seq<byte>): (st: Statement)
    ensures WellFormed(st) && st.template == ServerByToken && st.splices == []
    ensures st.params == [Bytes(token)]
  {
    Statement(ServerByToken, [], [Bytes(token)])
  }

  /** One row whose token equals `token`, if there is one. The query takes
      `LIMIT 1` without an order, so which of several such rows is left open
      by the contract; this definition takes the first. */
  function FindServer(rows: seq<ServerRow>, token: seq<byte>): (r: Option<Server>)
    ensures r.None? <==> forall i :: 0 <= i < |rows| ==> rows[i].token != token
    ensures r.Some? ==> exists i :: 0 <= i < |rows| && rows[i] == ServerRow(r.value.id, token)
  {
    if rows == [] then None
    else if rows[0].token == token then Some(Server(rows[0].serverId))
    else
      var r := FindServer(rows[1..], token);
      if r.Some? then
        assert exists i :: 0 <= i < |rows[1..]| && rows[1..][i] == ServerRow(r.value.id, token);
        var i :| 0 <= i < |rows[1..]| && rows[1..][i] == ServerRow(r.value.id, token);
        assert rows[i + 1] == ServerRow(r.value.id, token);
        r
      else
        assert forall i :: 1 <= i < |rows| ==> rows[i] == rows[1..][i - 1];
        r
  }

  /** Running the lookup statement: the table's error, or the server whose
      token is the statement's bound value. */
  function Lookup(db: ServerTable, st: Statement): (r: Result<Option<Server>, string>)
    requires WellFormed(st) && st.template == ServerByToken && st.params[0].Bytes?
    ensures db.failure.Some? ==> r == Failure(db.failure.value)
    ensures db.failure.None? ==> r == Success(FindServer(db.rows, st.params[0].bytes))
  {
    match db.failure
    case Some(e) => Failure(e)
    case None => Success(FindServer(db.rows, st.params[0].bytes))
  }

  /** The `X-Server-Token` extractor: presence, then text, then the lookup. */
  function ServerFromRequest(header: Option<seq<byte>>, db: ServerTable): (r: Result<Server, HttpError>)
    ensures header.None? ==> r == Failure(BadRequest(HEADER_MISSING))
    ensures header.Some? && HeaderToStr(header.value).None? ==> r == Failure(BadRequest(HEADER_NOT_ASCII))
    ensures header.Some? && HeaderToStr(header.value).Some? && db.failure.Some? ==>
              r == Failure(InternalServerError(db.failure.value))
    ensures header.Some? && HeaderToStr(header.value).Some? && db.failure.None?
              && (forall i :: 0 <= i < |db.rows| ==> db.rows[i].token != header.value) ==>
              r == Failure(Unauthorized(HEADER_INVALID))
    ensures r.Success? ==>
              header.Some?
              && (forall i :: 0 <= i < |header.value| ==> IsVisibleAscii(header.value[i]))
              && db.failure.None?
              && exists i :: 0 <= i < |db.rows| && db.rows[i] == ServerRow(r.value.id, header.value)
  {
    match header
    case None => Failure(BadRequest(HEADER_MISSING))
    case Some(value) =>
      match HeaderToStr(value)
      case None => Failure(BadRequest(HEADER_NOT_ASCII))
      case Some(token) =>
        match Lookup(db, LookupStatement(token))
        case Failure(e) => Failure(InternalServerError(e))
        case Success(None) => Failure(Unauthorized(HEADER_INVALID))
        case Success(Some(server)) => Success(server)
  }

  /** Both header checks finish before the lookup: a 400 is the same whatever
      the table holds or whether it can be read at all. */
  lemma HeaderChecksPrecedeLookup(header: Option<seq<byte>>, db1: ServerTable, db2: ServerTable)
    requires ServerFromRequest(header, db1).Failure?
    requires ServerFromRequest(header, db1).error.BadRequest?
    ensures ServerFromRequest(header, db2) == ServerFromRequest(header, db1)
  {
  }

  /** A registered server presenting its own token is let in, as that server
      when no other row shares the token. */
  lemma RegisteredServerAccepted(db: ServerTable, k: nat)
    requires db.failure.None? && k < |db.rows|
    requires forall i :: 0 <= i < |db.rows[k].token| ==> IsVisibleAscii(db.rows[k].token[i])
    ensures ServerFromRequest(Some(db.rows[k].token), db).Success?
    ensures (forall j :: 0 <= j < |db.rows| && j != k ==> db.rows[j].token != db.rows[k].token) ==>
              ServerFromRequest(Some(db.rows[k].token), db) == Success(Server(db.rows[k].serverId))
  {
    var r := ServerFromRequest(Some(db.rows[k].token), db);
    assert !(forall i :: 0 <= i < |db.rows| ==> db.rows[i].token != db.rows[k].token);
    assert r.Success?;
  }
}
