/** The attribute catalog: `tb_atribut` (categorical attributes) and
    `tb_nilai_atribut` (their allowed values), with the add, edit and delete
    routes of app.py and the delete cascade declared on `Atribut`. */
module Attributes {
  import opened Results
  import opened Tables

  /** A row of `tb_atribut`. */
  datatype Atribut = Atribut(nama: string)

  /** A row of `tb_nilai_atribut`: a value `nilai` of the attribute whose
      key is `idAtribut`. */
  datatype NilaiAtribut = NilaiAtribut(idAtribut: nat, nilai: string)

  datatype Catalog = Catalog(attributes: Table<Atribut>, values: Table<NilaiAtribut>)

  datatype CatalogError =
    | NotFound        // `get_or_404` found no row with the key
    | DuplicateName   // another attribute already has the name
    | DuplicateValue  // another row already has this (attribute, value) pair

  ghost predicate Wf(c: Catalog) {
    Valid(c.attributes) && Valid(c.values)
  }

  // ---------------------------------------------------------------- invariants

  /** Attribute names are unique. */
  ghost predicate NamesUnique(c: Catalog) {
    forall i, j | i in c.attributes.rows && j in c.attributes.rows ::
      c.attributes.rows[i].nama == c.attributes.rows[j].nama ==> i == j
  }

  /** (attribute key, value) pairs are unique. */
  ghost predicate PairsUnique(c: Catalog) {
    forall i, j | i in c.values.rows && j in c.values.rows ::
      c.values.rows[i] == c.values.rows[j] ==> i == j
  }

  /** Every value row refers to a stored attribute. */
  ghost predicate ValuesReferToAttributes(c: Catalog) {
    forall k | k in c.values.rows :: c.values.rows[k].idAtribut in c.attributes.rows
  }

  ghost predicate Invariant(c: Catalog) {
    Wf(c) && NamesUnique(c) && PairsUnique(c)
  }

  // ---------------------------------------------------------------- queries

  /** Some attribute other than the one keyed `except` has the name
      `nama`; `except` is None when no row is excluded. */
  predicate NameHeld(c: Catalog, nama: string, except: Option<nat>) {
    exists k | k in c.attributes.rows ::
      c.attributes.rows[k].nama == nama && except != Some(k)
  }

  /** Some value row other than the one keyed `except` holds exactly this
      (attribute, value) pair. */
  predicate PairHeld(c: Catalog, v: NilaiAtribut, except: Option<nat>) {
    exists k | k in c.values.rows :: c.values.rows[k] == v && except != Some(k)
  }

  // ---------------------------------------------------------------- attributes

  /** POST /attributes/add. */
  function AddAttribute(c: Catalog, nama: string): (r: Result<Catalog, CatalogError>)
    requires Wf(c)
    ensures r.Err? <==> (exists k | k in c.attributes.rows :: c.attributes.rows[k].nama == nama)
    ensures r.Err? ==> r.error == DuplicateName
    ensures r.Ok? ==> Wf(r.value) && r.value.values == c.values
    ensures r.Ok? ==> r.value.attributes.rows.Keys == c.attributes.rows.Keys + {c.attributes.nextId}
                      && c.attributes.nextId !in c.attributes.rows
                      && r.value.attributes.rows[c.attributes.nextId] == Atribut(nama)
                      && forall k | k in c.attributes.rows :: r.value.attributes.rows[k] == c.attributes.rows[k]
    ensures r.Ok? && Invariant(c) ==> Invariant(r.value)
    ensures r.Ok? && ValuesReferToAttributes(c) ==> ValuesReferToAttributes(r.value)
  {
    if NameHeld(c, nama, None) then Err(DuplicateName)
    else Ok(c.(attributes := Insert(c.attributes, Atribut(nama))))
  }

  /** POST /attributes/edit/<id>: the check excludes the edited row, so an
      attribute may keep its own name. */
  function EditAttribute(c: Catalog, id: nat, nama: string): (r: Result<Catalog, CatalogError>)
    requires Wf(c)
    ensures id !in c.attributes.rows ==> r == Err(NotFound)
    ensures id in c.attributes.rows ==>
              (r.Err? <==> exists k | k in c.attributes.rows && k != id :: c.attributes.rows[k].nama == nama)
    ensures id in c.attributes.rows && r.Err? ==> r.error == DuplicateName
    ensures r.Ok? ==> Wf(r.value) && r.value.values == c.values
    ensures r.Ok? ==> r.value.attributes.rows.Keys == c.attributes.rows.Keys
                      && r.value.attributes.rows[id] == Atribut(nama)
                      && forall k | k in c.attributes.rows && k != id ::
                           r.value.attributes.rows[k] == c.attributes.rows[k]
    ensures r.Ok? && Invariant(c) ==> Invariant(r.value)
    ensures r.Ok? && ValuesReferToAttributes(c) ==> ValuesReferToAttributes(r.value)
  {
    if id !in c.attributes.rows then Err(NotFound)
    else if NameHeld(c, nama, Some(id)) then Err(DuplicateName)
    else Ok(c.(attributes := Update(c.attributes, id, Atribut(nama))))
  }

  /** POST /attributes/delete/<id>: the relationship's
      `cascade="all, delete-orphan"` deletes the attribute's values with it. */
  function DeleteAttribute(c: Catalog, id: nat): (r: Result<Catalog, CatalogError>)
    requires Wf(c)
    ensures r.Err? <==> id !in c.attributes.rows
    ensures r.Err? ==> r.error == NotFound
    ensures r.Ok? ==> Wf(r.value)
    ensures r.Ok? ==> r.value.attributes.rows.Keys == c.attributes.rows.Keys - {id}
                      && forall k | k in r.value.attributes.rows ::
                           r.value.attributes.rows[k] == c.attributes.rows[k]
    // exactly the values of the deleted attribute go, the rest stay as they were
    ensures r.Ok? ==> forall k :: k in r.value.values.rows <==>
                        k in c.values.rows && c.values.rows[k].idAtribut != id
    ensures r.Ok? ==> forall k | k in r.value.values.rows :: r.value.values.rows[k] == c.values.rows[k]
    ensures r.Ok? ==> r.value.values.nextId == c.values.nextId
    ensures r.Ok? && Invariant(c) ==> Invariant(r.value)
    ensures r.Ok? && ValuesReferToAttributes(c) ==> ValuesReferToAttributes(r.value)
  {
    if id !in c.attributes.rows then Err(NotFound)
    else
      var kept := map k | k in c.values.rows && c.values.rows[k].idAtribut != id :: c.values.rows[k];
      Ok(Catalog(Delete(c.attributes, id), Table(kept, c.values.nextId)))
  }

  // ---------------------------------------------------------------- values

  /** POST /attribute_values/add. The form's attribute key is not checked
      against `tb_atribut`. */
  function AddAttributeValue(c: Catalog, idAtribut: nat, nilai: string): (r: Result<Catalog, CatalogError>)
    requires Wf(c)
    ensures r.Err? <==> (exists k | k in c.values.rows ::
                           c.values.rows[k].idAtribut == idAtribut && c.values.rows[k].nilai == nilai)
    ensures r.Err? ==> r.error == DuplicateValue
    ensures r.Ok? ==> Wf(r.value) && r.value.attributes == c.attributes
    ensures r.Ok? ==> r.value.values.rows.Keys == c.values.rows.Keys + {c.values.nextId}
                      && c.values.nextId !in c.values.rows
                      && r.value.values.rows[c.values.nextId] == NilaiAtribut(idAtribut, nilai)
                      && forall k | k in c.values.rows :: r.value.values.rows[k] == c.values.rows[k]
    ensures r.Ok? && Invariant(c) ==> Invariant(r.value)
  {
    var v := NilaiAtribut(idAtribut, nilai);
    if PairHeld(c, v, None) then Err(DuplicateValue)
    else Ok(c.(values := Insert(c.values, v)))
  }

  /** POST /attribute_values/edit/<id>: the check excludes the edited row. */
  function EditAttributeValue(c: Catalog, id: nat, idAtribut: nat, nilai: string): (r: Result<Catalog, CatalogError>)
    requires Wf(c)
    ensures id !in c.values.rows ==> r == Err(NotFound)
    ensures id in c.values.rows ==>
              (r.Err? <==> exists k | k in c.values.rows && k != id ::
                             c.values.rows[k].idAtribut == idAtribut && c.values.rows[k].nilai == nilai)
    ensures id in c.values.rows && r.Err? ==> r.error == DuplicateValue
    ensures r.Ok? ==> Wf(r.value) && r.value.attributes == c.attributes
    ensures r.Ok? ==> r.value.values.rows.Keys == c.values.rows.Keys
                      && r.value.values.rows[id] == NilaiAtribut(idAtribut, nilai)
                      && forall k | k in c.values.rows && k != id :: r.value.values.rows[k] == c.values.rows[k]
    ensures r.Ok? && Invariant(c) ==> Invariant(r.value)
  {
    var v := NilaiAtribut(idAtribut, nilai);
    if id !in c.values.rows then Err(NotFound)
    else if PairHeld(c, v, Some(id)) then Err(DuplicateValue)
    else Ok(c.(values := Update(c.values, id, v)))
  }

  /** POST /attribute_values/delete/<id>. */
  function DeleteAttributeValue(c: Catalog, id: nat): (r: Result<Catalog, CatalogError>)
    requires Wf(c)
    ensures r.Err? <==> id !in c.values.rows
    ensures r.Err? ==> r.error == NotFound
    ensures r.Ok? ==> Wf(r.value) && r.value.attributes == c.attributes
    ensures r.Ok? ==> r.value.values.rows.Keys == c.values.rows.Keys - {id}
                      && forall k | k in r.value.values.rows :: r.value.values.rows[k] == c.values.rows[k]
    ensures r.Ok? && Invariant(c) ==> Invariant(r.value)
    ensures r.Ok? && ValuesReferToAttributes(c) ==> ValuesReferToAttributes(r.value)
  {
    if id !in c.values.rows then Err(NotFound)
    else Ok(c.(values := Delete(c.values, id)))
  }

  // ---------------------------------------------------------------- lemmas

  /** Under the invariant, an attribute can always be saved under its own
      name, and an attribute value under its own pair. */
  lemma EditKeepingNameSucceeds(c: Catalog, id: nat)
    requires Invariant(c)
    requires id in c.attributes.rows
    ensures EditAttribute(c, id, c.attributes.rows[id].nama).Ok?
  {
  }

  lemma EditKeepingValueSucceeds(c: Catalog, id: nat)
    requires Invariant(c)
    requires id in c.values.rows
    ensures EditAttributeValue(c, id, c.values.rows[id].idAtribut, c.values.rows[id].nilai).Ok?
  {
  }

  /** Adding a name that was just added is rejected. */
  lemma AddAttributeTwiceRejected(c: Catalog, nama: string)
    requires Wf(c)
    requires AddAttribute(c, nama).Ok?
    ensures AddAttribute(AddAttribute(c, nama).value, nama) == Err(DuplicateName)
  {
    var c' := AddAttribute(c, nama).value;
    assert c'.attributes.rows[c.attributes.nextId].nama == nama;
  }

  /** After an attribute is deleted no value refers to it. */
  lemma DeleteAttributeLeavesNoValues(c: Catalog, id: nat)
    requires Wf(c)
    requires id in c.attributes.rows
    ensures var c' := DeleteAttribute(c, id).value;
            id !in c'.attributes.rows
            && forall k | k in c'.values.rows :: c'.values.rows[k].idAtribut != id
  {
  }
}
