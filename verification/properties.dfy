/**
 Properties of the handlers stated against the readable characterisations of
 the validators (`PlateSpec`, `EmailSpec`), and laws that relate one handler
 to another: what a create or update makes visible to a later get, delete
 undoing create, and the listing being determined by the table.
 */
module AutosProperties {
  import opened Ascii
  import opened Placa
  import opened Correo
  import opened Order
  import opened Autos

  predicate AllPresent(body: AutoBody) {
    !Missing(body.placa) && !Missing(body.modelo) && !Missing(body.color) && !Missing(body.correo)
  }

  /** Every check create makes before it reaches the database passes. */
  predicate CreateFieldsOk(body: AutoBody) {
    && AllPresent(body)
    && PlateSpec(body.placa.value)
    && EmailSpec(body.correo.value)
    && !TooLong(body.modelo.value, body.color.value, body.correo.value)
  }

  /** The checks update makes before it reaches the database: the plate is not among them. */
  predicate UpdateFieldsOk(body: AutoBody) {
    && !Missing(body.modelo) && !Missing(body.color) && !Missing(body.correo)
    && EmailSpec(body.correo.value)
    && !TooLong(body.modelo.value, body.color.value, body.correo.value)
  }

  // ---------------------------------------------------------------------------
  // Create

  /** Create's checks run in a fixed order; the first failing one answers 400, and the table is unchanged. */
  lemma CreateChecksInOrder(st: Store, body: AutoBody, freshId: nat, health: Health)
    ensures !AllPresent(body) ==> CreateAuto(st, body, freshId, health) == Reply(BadRequest(MsgObligatorios), st)
    ensures AllPresent(body) && !PlateSpec(body.placa.value) ==>
      CreateAuto(st, body, freshId, health) == Reply(BadRequest(MsgPlaca), st)
    ensures AllPresent(body) && PlateSpec(body.placa.value) && !EmailSpec(body.correo.value) ==>
      CreateAuto(st, body, freshId, health) == Reply(BadRequest(MsgCorreo), st)
    ensures (AllPresent(body) && PlateSpec(body.placa.value) && EmailSpec(body.correo.value)
             && TooLong(body.modelo.value, body.color.value, body.correo.value)) ==>
      CreateAuto(st, body, freshId, health) == Reply(BadRequest(MsgLongitud), st)
  {
    if AllPresent(body) {
      ValidarPlacaCharacterised(body.placa.value);
      ValidarCorreoCharacterised(body.correo.value);
    }
  }

  /**
   Once the fields pass, the database decides: a duplicate plate answers 400
   and any other failure 500, both leaving the table unchanged; otherwise the
   vehicle is created, under its plate exactly as given.
   */
  lemma CreateOutcome(st: Store, body: AutoBody, freshId: nat, health: Health)
    requires CreateFieldsOk(body)
    ensures health.Failing? ==> CreateAuto(st, body, freshId, health) == Reply(Internal(MsgErrorGuardar), st)
    ensures health.Healthy? && body.placa.value in st ==>
      CreateAuto(st, body, freshId, health) == Reply(BadRequest(MsgDuplicada), st)
    ensures health.Healthy? && body.placa.value !in st ==>
      && CreateAuto(st, body, freshId, health).response.Created?
      && Upper(body.placa.value) == body.placa.value
  {
    ValidarPlacaCharacterised(body.placa.value);
    ValidarCorreoCharacterised(body.correo.value);
    ValidPlateIsUpper(body.placa.value);
  }

  /** Create answers 201 exactly when every check passes, the database is healthy and the plate is new. */
  lemma CreateSucceedsIff(st: Store, body: AutoBody, freshId: nat, health: Health)
    ensures CreateAuto(st, body, freshId, health).response.Created? <==>
      CreateFieldsOk(body) && health.Healthy? && body.placa.value !in st
  {
    CreateChecksInOrder(st, body, freshId, health);
    if CreateFieldsOk(body) {
      CreateOutcome(st, body, freshId, health);
    }
  }

  /**
   A plate with a lower-case letter is refused with the plate message even
   though the insert would upper-case it: the shapes are tested on the raw
   plate.
   */
  lemma LowercasePlateRejected(st: Store, body: AutoBody, freshId: nat, health: Health)
    requires AllPresent(body) && HasLower(body.placa.value)
    ensures CreateAuto(st, body, freshId, health) == Reply(BadRequest(MsgPlaca), st)
  {
    LowercaseRejected(body.placa.value);
  }

  /** The request `{placa: "abc-123", modelo: "Sedan", color: "Red", correo: "X@Y.COM"}` is refused. */
  lemma LowercaseExample(st: Store, freshId: nat, health: Health)
    ensures CreateAuto(st, AutoBody(Some("abc-123"), Some("Sedan"), Some("Red"), Some("X@Y.COM")), freshId, health)
      == Reply(BadRequest(MsgPlaca), st)
  {
    var body := AutoBody(Some("abc-123"), Some("Sedan"), Some("Red"), Some("X@Y.COM"));
    assert IsLower(body.placa.value[0]);
    LowercasePlateRejected(st, body, freshId, health);
  }

  /** A created vehicle can be read back under its plate, with the e-mail lower-cased. */
  lemma CreateThenGet(st: Store, body: AutoBody, freshId: nat)
    requires CreateAuto(st, body, freshId, Healthy).response.Created?
    ensures
      var p := body.placa.value;
      GetAuto(CreateAuto(st, body, freshId, Healthy).store, p, Healthy)
        == Reply(Ok(One(Auto(freshId, p, body.modelo.value, body.color.value, Lower(body.correo.value)))),
                 CreateAuto(st, body, freshId, Healthy).store)
  {
    CreateSucceedsIff(st, body, freshId, Healthy);
    CreateOutcome(st, body, freshId, Healthy);
  }

  /** Deleting a vehicle just created restores the table. */
  lemma CreateThenDelete(st: Store, body: AutoBody, freshId: nat)
    requires CreateAuto(st, body, freshId, Healthy).response.Created?
    ensures
      var r := CreateAuto(st, body, freshId, Healthy);
      DeleteAuto(r.store, body.placa.value, Healthy) == Reply(Ok(Message(MsgEliminado)), st)
  {
    CreateSucceedsIff(st, body, freshId, Healthy);
    CreateOutcome(st, body, freshId, Healthy);
    var r := CreateAuto(st, body, freshId, Healthy);
    assert r.store - {body.placa.value} == st;
  }

  /** Creating the same vehicle twice: the second request answers "La placa ya existe" and changes nothing. */
  lemma CreateTwiceDuplicate(st: Store, body: AutoBody, id1: nat, id2: nat)
    requires CreateAuto(st, body, id1, Healthy).response.Created?
    ensures
      var st1 := CreateAuto(st, body, id1, Healthy).store;
      CreateAuto(st1, body, id2, Healthy) == Reply(BadRequest(MsgDuplicada), st1)
  {
    CreateSucceedsIff(st, body, id1, Healthy);
    CreateOutcome(st, body, id1, Healthy);
    CreateOutcome(CreateAuto(st, body, id1, Healthy).store, body, id2, Healthy);
  }

  // ---------------------------------------------------------------------------
  // Update

  /** Update's checks, in order: presence of model, colour and e-mail, the e-mail, the lengths, then an absent plate. */
  lemma UpdateChecksInOrder(st: Store, key: string, body: AutoBody, health: Health)
    ensures Missing(body.modelo) || Missing(body.color) || Missing(body.correo) ==>
      UpdateAuto(st, key, body, health) == Reply(BadRequest(MsgObligatorios), st)
    ensures !Missing(body.modelo) && !Missing(body.color) && !Missing(body.correo) && !EmailSpec(body.correo.value) ==>
      UpdateAuto(st, key, body, health) == Reply(BadRequest(MsgCorreo), st)
    ensures (!Missing(body.modelo) && !Missing(body.color) && !Missing(body.correo) && EmailSpec(body.correo.value)
             && TooLong(body.modelo.value, body.color.value, body.correo.value)) ==>
      UpdateAuto(st, key, body, health) == Reply(BadRequest(MsgLongitud), st)
    ensures UpdateFieldsOk(body) && body.placa.None? ==>
      UpdateAuto(st, key, body, health) == Reply(Internal(MsgErrorActualizar), st)
  {
    if !Missing(body.modelo) && !Missing(body.color) && !Missing(body.correo) {
      ValidarCorreoCharacterised(body.correo.value);
    }
  }

  /**
   Once the fields pass and a plate is present, the database decides: no row
   under the URL plate answers 404, a collision with another row or any other
   failure answers 500, and otherwise the row is replaced.
   */
  lemma UpdateOutcome(st: Store, key: string, body: AutoBody, health: Health)
    requires UpdateFieldsOk(body) && body.placa.Some?
    ensures health.Failing? ==> UpdateAuto(st, key, body, health) == Reply(Internal(MsgErrorActualizar), st)
    ensures health.Healthy? && key !in st ==> UpdateAuto(st, key, body, health) == Reply(NotFound(MsgNoEncontrado), st)
    ensures health.Healthy? && key in st && Upper(body.placa.value) != key && Upper(body.placa.value) in st ==>
      UpdateAuto(st, key, body, health) == Reply(Internal(MsgErrorActualizar), st)
    ensures health.Healthy? && key in st && (Upper(body.placa.value) == key || Upper(body.placa.value) !in st) ==>
      UpdateAuto(st, key, body, health)
        == Reply(Ok(Echo(body.placa.value, body.modelo.value, body.color.value, body.correo.value)),
                 (st - {key})[Upper(body.placa.value) := Row(st[key].id, body.modelo.value, body.color.value, Lower(body.correo.value))])
  {
    ValidarCorreoCharacterised(body.correo.value);
  }

  /**
   The body's plate plays no part in update's 400 answers: two bodies that
   differ only in their plate are refused alike.
   */
  lemma UpdatePlateUnchecked(st: Store, key: string, b1: AutoBody, b2: AutoBody, health: Health)
    requires b1.modelo == b2.modelo && b1.color == b2.color && b1.correo == b2.correo
    ensures UpdateAuto(st, key, b1, health).response.BadRequest? <==> UpdateAuto(st, key, b2, health).response.BadRequest?
    ensures UpdateAuto(st, key, b1, health).response.BadRequest? ==> UpdateAuto(st, key, b1, health) == UpdateAuto(st, key, b2, health)
  {
  }

  /**
   The same body that create refuses for its plate is written by update,
   which stores the plate upper-cased: `dbc-1` becomes `DBC-1`.
   */
  lemma UpdateAcceptsRefusedPlate(st: Store, key: string, body: AutoBody, freshId: nat)
    requires AllPresent(body) && !PlateSpec(body.placa.value) && EmailSpec(body.correo.value)
    requires !TooLong(body.modelo.value, body.color.value, body.correo.value)
    requires key in st && (Upper(body.placa.value) == key || Upper(body.placa.value) !in st)
    ensures CreateAuto(st, body, freshId, Healthy).response == BadRequest(MsgPlaca)
    ensures UpdateAuto(st, key, body, Healthy).response == Ok(Echo(body.placa.value, body.modelo.value, body.color.value, body.correo.value))
    ensures Upper(body.placa.value) in UpdateAuto(st, key, body, Healthy).store
  {
    CreateChecksInOrder(st, body, freshId, Healthy);
    UpdateOutcome(st, key, body, Healthy);
  }

  /** An updated vehicle is read back under its new, upper-cased plate, keeping its identifier. */
  lemma UpdateThenGet(st: Store, key: string, body: AutoBody)
    requires UpdateAuto(st, key, body, Healthy).response.Ok?
    ensures
      var r := UpdateAuto(st, key, body, Healthy);
      var p := Upper(body.placa.value);
      GetAuto(r.store, p, Healthy)
        == Reply(Ok(One(Auto(st[key].id, p, body.modelo.value, body.color.value, Lower(body.correo.value)))), r.store)
  {
  }

  /**
   What create and update write is already in normal form: the key is its
   own upper-cased form and the stored e-mail its own lower-cased form.
   */
  lemma WrittenValuesNormal(st: Store, body: AutoBody, freshId: nat, key: string)
    ensures CreateAuto(st, body, freshId, Healthy).response.Created? ==>
      var p := Upper(body.placa.value);
      var st' := CreateAuto(st, body, freshId, Healthy).store;
      Upper(p) == p && p in st' && Lower(st'[p].correo) == st'[p].correo
    ensures UpdateAuto(st, key, body, Healthy).response.Ok? ==>
      var p := Upper(body.placa.value);
      var st' := UpdateAuto(st, key, body, Healthy).store;
      Upper(p) == p && p in st' && Lower(st'[p].correo) == st'[p].correo
  {
    if body.placa.Some? {
      UpperIdempotent(body.placa.value);
    }
    if body.correo.Some? {
      LowerIdempotent(body.correo.value);
    }
  }

  // ---------------------------------------------------------------------------
  // Get, delete and keys that are not stored

  /** A plate with no row: get, delete and (well-formed) update all answer 404 and change nothing. */
  lemma AbsentKeyNotFound(st: Store, key: string, body: AutoBody)
    requires key !in st
    ensures GetAuto(st, key, Healthy) == Reply(NotFound(MsgNoEncontrado), st)
    ensures DeleteAuto(st, key, Healthy) == Reply(NotFound(MsgNoEncontrado), st)
    ensures UpdateFieldsOk(body) && body.placa.Some? ==>
      UpdateAuto(st, key, body, Healthy) == Reply(NotFound(MsgNoEncontrado), st)
  {
    if UpdateFieldsOk(body) && body.placa.Some? {
      UpdateOutcome(st, key, body, Healthy);
    }
  }

  /** After a successful delete the plate is no longer found, and a second delete answers 404. */
  lemma DeleteThenGet(st: Store, key: string)
    requires key in st
    ensures
      var st' := DeleteAuto(st, key, Healthy).store;
      && GetAuto(st', key, Healthy).response == NotFound(MsgNoEncontrado)
      && DeleteAuto(st', key, Healthy).response == NotFound(MsgNoEncontrado)
  {
  }

  // ---------------------------------------------------------------------------
  // Listing

  /** Two strictly sorted sequences with the same elements are the same sequence. */
  lemma {:induction false} SortedSameElements(a: seq<Auto>, b: seq<Auto>)
    requires StrictlySorted(a) && StrictlySorted(b)
    requires forall x :: x in a <==> x in b
    ensures a == b
    decreases |a|
  {
    if |a| > 0 {
      assert a[0] in a;
    }
    if |b| > 0 {
      assert b[0] in b;
    }
    if |a| == 0 || |b| == 0 {
      assert forall x :: x !in a && x !in b;
    } else {
      assert a[0] in b && b[0] in a;
      var i :| 0 <= i < |a| && a[i] == b[0];
      var j :| 0 <= j < |b| && b[j] == a[0];
      if i > 0 && j > 0 {
        LexAsymmetric(a[0].placa, a[i].placa);
        assert false;
      }
      assert a[0] == b[0];
      forall x
        ensures x in a[1..] <==> x in b[1..]
      {
        if x in a[1..] {
          var k :| 1 <= k < |a| && a[k] == x;
          LexIrreflexive(a[0].placa);
          assert x in b && x != b[0];
        }
        if x in b[1..] {
          var k :| 1 <= k < |b| && b[k] == x;
          LexIrreflexive(b[0].placa);
          assert x in a && x != a[0];
        }
      }
      SortedSameElements(a[1..], b[1..]);
      assert a == [a[0]] + a[1..] && b == [b[0]] + b[1..];
    }
  }

  /** The listing of a table is unique: whatever order the rows are visited in, the answer is the same. */
  lemma ListingUnique(st: Store, a: seq<Auto>, b: seq<Auto>)
    requires IsListing(st, a) && IsListing(st, b)
    ensures a == b
  {
    forall x
      ensures x in a <==> x in b
    {
      if x in a {
        var i :| 0 <= i < |a| && a[i] == x;
      }
      if x in b {
        var i :| 0 <= i < |b| && b[i] == x;
      }
    }
    SortedSameElements(a, b);
  }

  /** With `MNO-1234` and `ABC-123` stored, the listing is `ABC-123` then `MNO-1234`. */
  lemma ListingExample(r1: Row, r2: Row, rows: seq<Auto>)
    requires IsListing(map["MNO-1234" := r1, "ABC-123" := r2], rows)
    ensures rows == [AutoOf("ABC-123", r2), AutoOf("MNO-1234", r1)]
  {
    var st := map["MNO-1234" := r1, "ABC-123" := r2];
    var expected := [AutoOf("ABC-123", r2), AutoOf("MNO-1234", r1)];
    assert LexLess("ABC-123", "MNO-1234");
    assert st.Keys == {"MNO-1234", "ABC-123"};
    assert IsListing(st, expected);
    ListingUnique(st, rows, expected);
  }
}
