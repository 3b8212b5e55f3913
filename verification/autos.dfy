/**
 The five request handlers of the vehicle service, over an abstract table of
 vehicle rows keyed by plate.

 Each handler is a pure function from the table and the request to a reply:
 the HTTP response and the table after the request. What the database does
 besides enforcing the plate's uniqueness (losing its connection, rejecting a
 statement) is the `Health` parameter; the identifier the database assigns on
 insertion is the `freshId` parameter.
 */
module Autos {
  import opened Ascii
  import opened Placa
  import opened Correo
  import opened Order

  datatype Option<+T> = None | Some(value: T)

  // ---------------------------------------------------------------------------
  // Data model

  /**
   A stored vehicle without its plate: the plate is the key it is stored
   under, so two rows never share one.
   */
  datatype Row = Row(id: nat, modelo: string, color: string, correo: string)

  type Store = map<string, Row>

  /** A vehicle as the service returns it: the columns of one table row. */
  datatype Auto = Auto(id: nat, placa: string, modelo: string, color: string, correo: string)

  function AutoOf(placa: string, row: Row): Auto {
    Auto(row.id, placa, row.modelo, row.color, row.correo)
  }

  /** A JSON request body: a field the client left out is `None`. */
  datatype AutoBody = AutoBody(placa: Option<string>, modelo: Option<string>, color: Option<string>, correo: Option<string>)

  /** A body field that JavaScript treats as false: absent, or the empty string. */
  predicate Missing(f: Option<string>): (m: bool)
    ensures !m ==> f.Some? && |f.value| > 0
    ensures m ==> f == None || f == Some("")
  {
    f.None? || f.value == ""
  }

  /** Whether the database answers a statement, or fails it with an error other than a duplicate key. */
  datatype Health = Healthy | Failing

  /** The JSON body of a successful response. */
  datatype Payload =
    | Autos(rows: seq<Auto>)
    | One(auto: Auto)
    | Saved(id: nat, placa: string, modelo: string, color: string, correo: string)
    | Echo(placa: string, modelo: string, color: string, correo: string)
    | Message(message: string)

  /** One constructor per HTTP status the service answers with. */
  datatype Response =
    | Ok(payload: Payload)       // 200
    | Created(payload: Payload)  // 201
    | BadRequest(error: string)  // 400
    | NotFound(error: string)    // 404
    | Internal(error: string)    // 500

  datatype Reply = Reply(response: Response, store: Store)

  const MsgObligatorios := "Todos los campos son obligatorios"
  const MsgPlaca := "Placa inv\U{E1}lida. La primera letra debe corresponder a una provincia v\U{E1}lida de Ecuador. Formatos: ABC-123 (antiguo), AAA-1234 (nuevo), AA-1234A (moto)"
  const MsgCorreo := "Correo inv\U{E1}lido"
  const MsgLongitud := "Longitud de campos excedida"
  const MsgDuplicada := "La placa ya existe"
  const MsgNoEncontrado := "Auto no encontrado"
  const MsgEliminado := "Auto eliminado correctamente"
  const MsgErrorListar := "Error al obtener autos"
  const MsgErrorObtener := "Error al obtener auto"
  const MsgErrorGuardar := "Error al guardar auto"
  const MsgErrorActualizar := "Error al actualizar auto"
  const MsgErrorEliminar := "Error al eliminar auto"

  /** The column limits both create and update enforce; a field exactly at its limit passes. */
  predicate TooLong(modelo: string, color: string, correo: string): (t: bool)
    ensures |modelo| == 50 && |color| == 30 && |correo| == 100 ==> !t
    ensures |modelo| == 51 || |color| == 31 || |correo| == 101 ==> t
  {
    |modelo| > 50 || |color| > 30 || |correo| > 100
  }

  // ---------------------------------------------------------------------------
  // The statements the handlers send to the database

  /** The outcome of an INSERT, UPDATE or DELETE: rows affected and the new table, or an error. */
  datatype Exec = Done(affected: nat, store: Store) | DupEntry | Failure

  /** `INSERT INTO autos ...`: the key must be new. */
  function Insert(st: Store, placa: string, row: Row, health: Health): (e: Exec)
    ensures health.Healthy? ==> !e.Failure?
    ensures e.DupEntry? ==> placa in st
    ensures e.Done? ==> && e.affected == 1 && placa !in st
                        && e.store.Keys == st.Keys + {placa} && e.store[placa] == row
                        && forall k :: k in st ==> e.store[k] == st[k]
  {
    if health.Failing? then Failure
    else if placa in st then DupEntry
    else Done(1, st[placa := row])
  }

  /**
   `UPDATE autos SET placa = ?, ... WHERE placa = ?`: the matched row keeps
   its identifier and moves to its new key, which no other row may hold. The
   affected count is the number of matched rows.
   */
  function UpdateWhere(st: Store, key: string, placa: string, modelo: string, color: string, correo: string, health: Health): (e: Exec)
    ensures health.Healthy? ==> !e.Failure?
    ensures e.DupEntry? ==> key in st && placa != key && placa in st
    ensures e.Done? && e.affected == 0 ==> key !in st && e.store == st
    ensures e.Done? && e.affected != 0 ==>
      && e.affected == 1 && key in st
      && e.store.Keys == st.Keys - {key} + {placa}
      && e.store[placa] == Row(st[key].id, modelo, color, correo)
      && forall k :: k in st && k != key ==> e.store[k] == st[k]
  {
    if health.Failing? then Failure
    else if key !in st then Done(0, st)
    else if placa != key && placa in st then DupEntry
    else Done(1, (st - {key})[placa := Row(st[key].id, modelo, color, correo)])
  }

  /** `DELETE FROM autos WHERE placa = ?` */
  function DeleteWhere(st: Store, key: string, health: Health): (e: Exec)
    ensures health.Healthy? <==> e.Done?
    ensures e.Done? ==> && e.affected == (if key in st then 1 else 0)
                        && e.store.Keys == st.Keys - {key}
                        && forall k :: k in e.store ==> e.store[k] == st[k]
  {
    if health.Failing? then Failure
    else if key in st then Done(1, st - {key})
    else Done(0, st)
  }

  // ---------------------------------------------------------------------------
  // Ordering of the listing

  predicate StrictlySorted(rows: seq<Auto>) {
    forall i, j :: 0 <= i < j < |rows| ==> LexLess(rows[i].placa, rows[j].placa)
  }

  /** `rows` is the whole table, one entry per row, in ascending plate order. */
  predicate IsListing(st: Store, rows: seq<Auto>) {
    && StrictlySorted(rows)
    && |rows| == |st|
    && (forall i :: 0 <= i < |rows| ==> rows[i].placa in st && rows[i] == AutoOf(rows[i].placa, st[rows[i].placa]))
    && (forall k :: k in st ==> AutoOf(k, st[k]) in rows)
  }

  lemma SortedCons(h: Auto, rest: seq<Auto>)
    requires StrictlySorted(rest)
    requires forall i :: 0 <= i < |rest| ==> LexLess(h.placa, rest[i].placa)
    ensures StrictlySorted([h] + rest)
  {
    var s := [h] + rest;
    forall i, j | 0 <= i < j < |s|
      ensures LexLess(s[i].placa, s[j].placa)
    {
      if i > 0 {
        assert s[i] == rest[i - 1] && s[j] == rest[j - 1];
      } else {
        assert s[j] == rest[j - 1];
      }
    }
  }

  /** Places `a` among sorted rows whose plates all differ from its own. */
  function InsertSorted(rows: seq<Auto>, a: Auto): (r: seq<Auto>)
    requires StrictlySorted(rows)
    requires forall i :: 0 <= i < |rows| ==> rows[i].placa != a.placa
    ensures StrictlySorted(r)
    ensures |r| == |rows| + 1
    ensures forall x :: x in r <==> x in rows || x == a
  {
    if |rows| == 0 then [a]
    else if LexLess(a.placa, rows[0].placa) then
      assert forall i :: 0 <= i < |rows| ==> LexLess(a.placa, rows[i].placa) by {
        forall i | 0 < i < |rows| {
          LexTransitive(a.placa, rows[0].placa, rows[i].placa);
        }
      }
      SortedCons(a, rows);
      [a] + rows
    else
      LexTotal(a.placa, rows[0].placa);
      var rest := InsertSorted(rows[1..], a);
      assert forall i :: 0 <= i < |rest| ==> LexLess(rows[0].placa, rest[i].placa) by {
        forall i | 0 <= i < |rest|
          ensures LexLess(rows[0].placa, rest[i].placa)
        {
          if rest[i] != a {
            assert rest[i] in rows[1..];
          }
        }
      }
      SortedCons(rows[0], rest);
      [rows[0]] + rest
  }

  /** `rows` lists, in ascending plate order, exactly the rows stored under the keys in `done`. */
  predicate PartialListing(st: Store, rows: seq<Auto>, done: set<string>) {
    && done <= st.Keys
    && StrictlySorted(rows)
    && |rows| == |done|
    && (forall i :: 0 <= i < |rows| ==> rows[i].placa in done && rows[i] == AutoOf(rows[i].placa, st[rows[i].placa]))
    && (forall k :: k in done ==> AutoOf(k, st[k]) in rows)
  }

  lemma PartialListingStep(st: Store, rows: seq<Auto>, done: set<string>, k: string)
    requires PartialListing(st, rows, done)
    requires k in st && k !in done
    ensures forall i :: 0 <= i < |rows| ==> rows[i].placa != AutoOf(k, st[k]).placa
    ensures PartialListing(st, InsertSorted(rows, AutoOf(k, st[k])), done + {k})
  {
    forall i | 0 <= i < |rows|
      ensures rows[i].placa != k
    {
      assert rows[i].placa in done;
    }
    var rows' := InsertSorted(rows, AutoOf(k, st[k]));
    assert |done + {k}| == |done| + 1;
    forall k' | k' in done + {k}
      ensures AutoOf(k', st[k']) in rows'
    {
      if k' != k {
        assert AutoOf(k', st[k']) in rows;
      }
    }
    forall i | 0 <= i < |rows'|
      ensures rows'[i].placa in done + {k} && rows'[i] == AutoOf(rows'[i].placa, st[rows'[i].placa])
    {
      assert rows'[i] in rows || rows'[i] == AutoOf(k, st[k]);
    }
  }

  // ---------------------------------------------------------------------------
  // The handlers

  /** GET /api/autos: the whole table ordered by plate. */
  method ListAutos(st: Store, health: Health) returns (r: Reply)
    ensures r.store == st
    ensures health.Failing? ==> r.response == Internal(MsgErrorListar)
    ensures health.Healthy? ==> r.response.Ok? && r.response.payload.Autos? && IsListing(st, r.response.payload.rows)
  {
    if health.Failing? {
      return Reply(Internal(MsgErrorListar), st);
    }
    var rows: seq<Auto> := [];
    var pending, done := st.Keys, {};
    while pending != {}
      invariant pending + done == st.Keys && pending !! done
      invariant PartialListing(st, rows, done)
      decreases pending
    {
      var k :| k in pending;
      PartialListingStep(st, rows, done, k);
      rows := InsertSorted(rows, AutoOf(k, st[k]));
      pending, done := pending - {k}, done + {k};
    }
    assert done == st.Keys;
    return Reply(Ok(Autos(rows)), st);
  }

  /** GET /api/autos/:placa: the row stored under exactly that key. */
  function GetAuto(st: Store, key: string, health: Health): (r: Reply)
    ensures r.store == st
    ensures health.Failing? ==> r.response == Internal(MsgErrorObtener)
    ensures health.Healthy? && key in st ==>
      r.response == Ok(One(Auto(st[key].id, key, st[key].modelo, st[key].color, st[key].correo)))
    ensures health.Healthy? && key !in st ==> r.response == NotFound(MsgNoEncontrado)
  {
    if health.Failing? then Reply(Internal(MsgErrorObtener), st)
    else if key !in st then Reply(NotFound(MsgNoEncontrado), st)
    else Reply(Ok(One(AutoOf(key, st[key]))), st)
  }

  /**
   POST /api/autos: presence, plate, e-mail and lengths are checked in that
   order before the database is touched; the plate is stored upper-cased and
   the e-mail lower-cased, but the 201 body echoes them as given.
   */
  function CreateAuto(st: Store, body: AutoBody, freshId: nat, health: Health): (r: Reply)
    ensures r.response.Created? || r.store == st
    ensures !r.response.Ok? && !r.response.NotFound?
    ensures r.response.Created? ==>
      && body.placa.Some? && body.modelo.Some? && body.color.Some? && body.correo.Some?
      && var key := Upper(body.placa.value);
      && key !in st
      && r.store.Keys == st.Keys + {key}
      && r.store[key] == Row(freshId, body.modelo.value, body.color.value, Lower(body.correo.value))
      && (forall k :: k in st ==> r.store[k] == st[k])
      && r.response.payload == Saved(freshId, body.placa.value, body.modelo.value, body.color.value, body.correo.value)
  {
    if Missing(body.placa) || Missing(body.modelo) || Missing(body.color) || Missing(body.correo) then
      Reply(BadRequest(MsgObligatorios), st)
    else
      var placa, modelo, color, correo := body.placa.value, body.modelo.value, body.color.value, body.correo.value;
      if !ValidarPlaca(placa) then Reply(BadRequest(MsgPlaca), st)
      else if !ValidarCorreo(correo) then Reply(BadRequest(MsgCorreo), st)
      else if TooLong(modelo, color, correo) then Reply(BadRequest(MsgLongitud), st)
      else
        match Insert(st, Upper(placa), Row(freshId, modelo, color, Lower(correo)), health)
        case Done(_, st') => Reply(Created(Saved(freshId, placa, modelo, color, correo)), st')
        case DupEntry => Reply(BadRequest(MsgDuplicada), st)
        case Failure => Reply(Internal(MsgErrorGuardar), st)
  }

  /**
   PUT /api/autos/:placa: only model, colour and e-mail are required, and the
   body's plate is neither required nor validated. An absent plate makes
   `placa.toUpperCase()` throw inside the `try`, which answers 500, as does a
   new plate that collides with another row.
   */
  function UpdateAuto(st: Store, key: string, body: AutoBody, health: Health): (r: Reply)
    ensures r.response.Ok? || r.store == st
    ensures !r.response.Created?
    ensures r.response.Ok? ==>
      && body.placa.Some? && body.modelo.Some? && body.color.Some? && body.correo.Some?
      && var placa := Upper(body.placa.value);
      && key in st
      && (placa == key || placa !in st)
      && r.store.Keys == st.Keys - {key} + {placa}
      && r.store[placa] == Row(st[key].id, body.modelo.value, body.color.value, Lower(body.correo.value))
      && (forall k :: k in st && k != key && k != placa ==> r.store[k] == st[k])
      && r.response.payload == Echo(body.placa.value, body.modelo.value, body.color.value, body.correo.value)
    ensures r.response.NotFound? ==> key !in st
  {
    if Missing(body.modelo) || Missing(body.color) || Missing(body.correo) then
      Reply(BadRequest(MsgObligatorios), st)
    else
      var modelo, color, correo := body.modelo.value, body.color.value, body.correo.value;
      if !ValidarCorreo(correo) then Reply(BadRequest(MsgCorreo), st)
      else if TooLong(modelo, color, correo) then Reply(BadRequest(MsgLongitud), st)
      else if body.placa.None? then Reply(Internal(MsgErrorActualizar), st)
      else
        match UpdateWhere(st, key, Upper(body.placa.value), modelo, color, Lower(correo), health)
        case Done(0, _) => Reply(NotFound(MsgNoEncontrado), st)
        case Done(_, st') => Reply(Ok(Echo(body.placa.value, modelo, color, correo)), st')
        case DupEntry => Reply(Internal(MsgErrorActualizar), st)
        case Failure => Reply(Internal(MsgErrorActualizar), st)
  }

  /** DELETE /api/autos/:placa: removes the row stored under exactly that key. */
  function DeleteAuto(st: Store, key: string, health: Health): (r: Reply)
    ensures health.Failing? ==> r == Reply(Internal(MsgErrorEliminar), st)
    ensures health.Healthy? && key !in st ==> r == Reply(NotFound(MsgNoEncontrado), st)
    ensures health.Healthy? && key in st ==>
      && r.response == Ok(Message(MsgEliminado))
      && r.store.Keys == st.Keys - {key}
      && (forall k :: k in r.store ==> r.store[k] == st[k])
  {
    match DeleteWhere(st, key, health)
    case Done(0, _) => Reply(NotFound(MsgNoEncontrado), st)
    case Done(_, st') => Reply(Ok(Message(MsgEliminado)), st')
    case DupEntry => Reply(Internal(MsgErrorEliminar), st)
    case Failure => Reply(Internal(MsgErrorEliminar), st)
  }
}
