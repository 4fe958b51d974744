/**
  The store's document (`self.data`): three lists, and one function per
  updating operation giving the document it leaves behind and the value it
  returns. The class in module Store runs these operations in place and is
  proved to agree with them; the lemmas here say what they mean.
 */
module Document {
  import opened Wrappers
  import opened Text
  import opened Records

  datatype Doc = Doc(equipos: seq<Equipo>, mantenimientos: seq<Mant>, tipos: seq<Tipo>)

  /** The most equipment one type may hold when inserting at a position. */
  const MaxPerTipo: int := 10

  /** The longest note kept. */
  const MaxNota: nat := 50

  const EmptyNameMsg: string := "El nombre no puede estar vac\U{ED}o"
  const TakenNameMsg: string := "Ya existe un equipo con ese nombre"
  const RenamedMsg: string := "Renombrado correctamente"
  const NotFoundMsg: string := "Equipo no encontrado"

  // ---------------------------------------------------------------------------
  // The invariant every updating operation keeps

  predicate UniqueIds(eqs: seq<Equipo>) {
    forall i, j :: 0 <= i < j < |eqs| ==> eqs[i].id != eqs[j].id
  }

  predicate UniqueNames(eqs: seq<Equipo>) {
    forall i, j :: 0 <= i < j < |eqs| ==> eqs[i].nombre != eqs[j].nombre
  }

  predicate UniqueMantIds(ms: seq<Mant>) {
    forall i, j :: 0 <= i < j < |ms| ==> ms[i].id != ms[j].id
  }

  predicate HasId(eqs: seq<Equipo>, id: int) {
    exists j :: 0 <= j < |eqs| && eqs[j].id == id
  }

  /** Every event belongs to equipment that exists. */
  predicate Owned(ms: seq<Mant>, eqs: seq<Equipo>) {
    forall i :: 0 <= i < |ms| ==> HasId(eqs, ms[i].equipoId)
  }

  /**
    Ids and names identify equipment, event ids are distinct and no event
    is orphaned: what the store's own operations never break.
   */
  predicate Consistent(d: Doc) {
    && UniqueIds(d.equipos)
    && UniqueNames(d.equipos)
    && UniqueMantIds(d.mantenimientos)
    && Owned(d.mantenimientos, d.equipos)
  }

  // ---------------------------------------------------------------------------
  // save_equipo and save_mantenimiento

  /** `save_equipo`: update the first equipment with that name, or append a new one. Always True. */
  function SaveEquipo(d: Doc, nombre: string, seccion: string, tipo: string, posicion: int): Doc {
    match IndexOfName(d.equipos, nombre)
    case Some(i) =>
      d.(equipos := d.equipos[i := d.equipos[i].(seccion := seccion, tipo := tipo, posicion := posicion)])
    case None =>
      d.(equipos := d.equipos + [Equipo(NextId(EquipoIds(d.equipos)), nombre, seccion, tipo, posicion, "")])
  }

  /**
    On a known name only that record's section, type and slot change; its id,
    name and note, every other record, the events and the catalog stay.
   */
  lemma SaveEquipoExisting(d: Doc, nombre: string, seccion: string, tipo: string, posicion: int)
    requires HasName(d.equipos, nombre)
    ensures var d' := SaveEquipo(d, nombre, seccion, tipo, posicion);
      var i := IndexOfName(d.equipos, nombre).value;
      && |d'.equipos| == |d.equipos|
      && d'.equipos[i].id == d.equipos[i].id
      && d'.equipos[i].nombre == nombre
      && d'.equipos[i].nota == d.equipos[i].nota
      && d'.equipos[i].seccion == seccion && d'.equipos[i].tipo == tipo && d'.equipos[i].posicion == posicion
      && (forall j :: 0 <= j < |d.equipos| && j != i ==> d'.equipos[j] == d.equipos[j])
      && d'.mantenimientos == d.mantenimientos && d'.tipos == d.tipos
  {
  }

  /**
    On a new name exactly one record is appended, with id `max(ids, default=0) + 1`
    and an empty note; nothing else changes.
   */
  lemma SaveEquipoNew(d: Doc, nombre: string, seccion: string, tipo: string, posicion: int)
    requires !HasName(d.equipos, nombre)
    ensures var d' := SaveEquipo(d, nombre, seccion, tipo, posicion);
      var e := d'.equipos[|d'.equipos| - 1];
      && |d'.equipos| == |d.equipos| + 1
      && d'.equipos[..|d.equipos|] == d.equipos
      && e.nombre == nombre && e.seccion == seccion && e.tipo == tipo && e.posicion == posicion && e.nota == ""
      && (forall j :: 0 <= j < |d.equipos| ==> d.equipos[j].id < e.id)
      && (d.equipos == [] ==> e.id == 1)
      && (d.equipos != [] ==> exists j :: 0 <= j < |d.equipos| && d.equipos[j].id == e.id - 1)
      && d'.mantenimientos == d.mantenimientos && d'.tipos == d.tipos
  {
  }

  /** `save_equipo` keeps the document consistent. */
  lemma SaveEquipoConsistent(d: Doc, nombre: string, seccion: string, tipo: string, posicion: int)
    requires Consistent(d)
    ensures Consistent(SaveEquipo(d, nombre, seccion, tipo, posicion))
  {
    var d' := SaveEquipo(d, nombre, seccion, tipo, posicion);
    forall i | 0 <= i < |d'.mantenimientos|
      ensures HasId(d'.equipos, d'.mantenimientos[i].equipoId)
    {
      var j :| 0 <= j < |d.equipos| && d.equipos[j].id == d.mantenimientos[i].equipoId;
      assert d'.equipos[j].id == d.equipos[j].id;
    }
  }

  /**
    `save_equipo` creates equipment without looking at the per-type limit
    that inserting at a position enforces: a type already holding ten can
    be given an eleventh.
   */
  lemma SaveEquipoIgnoresCapacity()
    ensures var d := Doc(seq(10, k requires 0 <= k < 10 => Equipo(k + 1, [(65 + k) as char], "positivo", "carne", k, "")), [], []);
      && CountTipo(d.equipos, "carne") == MaxPerTipo
      && CountTipo(SaveEquipo(d, "Z", "positivo", "carne", 10).equipos, "carne") == MaxPerTipo + 1
  {
    var d := Doc(seq(10, k requires 0 <= k < 10 => Equipo(k + 1, [(65 + k) as char], "positivo", "carne", k, "")), [], []);
    CountAllOfTipo(d.equipos, "carne");
    assert !HasName(d.equipos, "Z") by {
      forall i | 0 <= i < 10 ensures d.equipos[i].nombre != "Z" {
        assert d.equipos[i].nombre[0] == (65 + i) as char;
      }
    }
    var e' := SaveEquipo(d, "Z", "positivo", "carne", 10).equipos;
    CountAllOfTipo(e', "carne");
  }

  /** A list whose records all have type `tipo` counts its whole length. */
  lemma {:induction false} CountAllOfTipo(eqs: seq<Equipo>, tipo: string)
    requires forall i :: 0 <= i < |eqs| ==> eqs[i].tipo == tipo
    ensures CountTipo(eqs, tipo) == |eqs|
  {
    if eqs != [] {
      CountAllOfTipo(eqs[..|eqs| - 1], tipo);
    }
  }

  /**
    `save_mantenimiento`: append an event for the first equipment with that
    name, with the next event id. False, and no change, for an unknown name.
   */
  function SaveMantenimiento(d: Doc, nombre: string, fecha: string, frecuencia: int): (Doc, bool) {
    match IndexOfName(d.equipos, nombre)
    case None => (d, false)
    case Some(i) =>
      var m := Mant(NextId(MantIds(d.mantenimientos)), d.equipos[i].id, fecha, frecuencia);
      (d.(mantenimientos := d.mantenimientos + [m]), true)
  }

  /**
    `save_mantenimiento` succeeds exactly for a known name; it then appends
    one event, owned by that equipment, with id `max(event ids, default=0) + 1`,
    and that event becomes the equipment's current one.
   */
  lemma SaveMantenimientoSpec(d: Doc, nombre: string, fecha: string, frecuencia: int)
    ensures var (d', ok) := SaveMantenimiento(d, nombre, fecha, frecuencia);
      && (ok <==> HasName(d.equipos, nombre))
      && (!ok ==> d' == d)
      && (ok ==>
            var i := IndexOfName(d.equipos, nombre).value;
            var m := d'.mantenimientos[|d'.mantenimientos| - 1];
            && d'.equipos == d.equipos && d'.tipos == d.tipos
            && |d'.mantenimientos| == |d.mantenimientos| + 1
            && d'.mantenimientos[..|d.mantenimientos|] == d.mantenimientos
            && m.equipoId == d.equipos[i].id && m.fecha == fecha && m.frecuencia == frecuencia
            && (forall j :: 0 <= j < |d.mantenimientos| ==> d.mantenimientos[j].id < m.id)
            && (d.mantenimientos == [] ==> m.id == 1)
            && (d.mantenimientos != [] ==> exists j :: 0 <= j < |d.mantenimientos| && d.mantenimientos[j].id == m.id - 1)
            && LastMant(d'.mantenimientos, d.equipos[i].id) == Some(m))
  {
    var (d', ok) := SaveMantenimiento(d, nombre, fecha, frecuencia);
    if ok {
      var m := d'.mantenimientos[|d'.mantenimientos| - 1];
      LastMantAppend(d.mantenimientos, m, m.equipoId);
      assert d'.mantenimientos == d.mantenimientos + [m];
    }
  }

  /** `save_mantenimiento` keeps the document consistent. */
  lemma SaveMantenimientoConsistent(d: Doc, nombre: string, fecha: string, frecuencia: int)
    requires Consistent(d)
    ensures Consistent(SaveMantenimiento(d, nombre, fecha, frecuencia).0)
  {
    var (d', ok) := SaveMantenimiento(d, nombre, fecha, frecuencia);
    if ok {
      var i := IndexOfName(d.equipos, nombre).value;
      var n := |d.mantenimientos|;
      assert HasId(d.equipos, d'.mantenimientos[n].equipoId) by {
        assert d.equipos[i].id == d'.mantenimientos[n].equipoId;
      }
      assert forall j :: 0 <= j < n ==> d'.mantenimientos[j] == d.mantenimientos[j];
    }
  }

  // ---------------------------------------------------------------------------
  // delete_equipo, reset_mantenimiento, borrar_historial_entre_fechas

  /** `delete_equipo`: drop the equipment found by name, every record sharing its id and all their events. */
  function DeleteEquipo(d: Doc, nombre: string): Doc {
    match IndexOfName(d.equipos, nombre)
    case None => d
    case Some(i) =>
      var id := d.equipos[i].id;
      d.(mantenimientos := DropMantsOf(d.mantenimientos, id), equipos := DropEquipo(d.equipos, id))
  }

  /**
    After `delete_equipo` no equipment carries the deleted id and no event
    refers to it; everything else survives, in order (the drops distribute
    over concatenation); the catalog stays; an unknown name changes nothing.
   */
  lemma DeleteEquipoSpec(d: Doc, nombre: string)
    ensures var d' := DeleteEquipo(d, nombre);
      && d'.tipos == d.tipos
      && (!HasName(d.equipos, nombre) ==> d' == d)
      && (HasName(d.equipos, nombre) ==>
            var id := d.equipos[IndexOfName(d.equipos, nombre).value].id;
            && !HasId(d'.equipos, id)
            && (forall m :: m in d'.mantenimientos ==> m.equipoId != id)
            && (forall e :: e in d'.equipos <==> e in d.equipos && e.id != id)
            && (forall m :: m in d'.mantenimientos <==> m in d.mantenimientos && m.equipoId != id)
            && d'.equipos == DropEquipo(d.equipos, id)
            && d'.mantenimientos == DropMantsOf(d.mantenimientos, id))
  {
    var d' := DeleteEquipo(d, nombre);
    if HasName(d.equipos, nombre) {
      var id := d.equipos[IndexOfName(d.equipos, nombre).value].id;
      forall j | 0 <= j < |d'.equipos| ensures d'.equipos[j].id != id {
        assert d'.equipos[j] in d'.equipos;
      }
    }
  }

  /** With unique names, a deleted name is gone for good. */
  lemma DeleteEquipoRemovesName(d: Doc, nombre: string)
    requires Consistent(d)
    ensures !HasName(DeleteEquipo(d, nombre).equipos, nombre)
  {
    var d' := DeleteEquipo(d, nombre);
    if HasName(d.equipos, nombre) {
      var i := IndexOfName(d.equipos, nombre).value;
      forall j | 0 <= j < |d'.equipos| ensures d'.equipos[j].nombre != nombre {
        assert d'.equipos[j] in d'.equipos;
        var k :| 0 <= k < |d.equipos| && d.equipos[k] == d'.equipos[j];
        assert k != i;
      }
    }
  }

  /** `delete_equipo` keeps the document consistent. */
  lemma DeleteEquipoConsistent(d: Doc, nombre: string)
    requires Consistent(d)
    ensures Consistent(DeleteEquipo(d, nombre))
  {
    var d' := DeleteEquipo(d, nombre);
    if HasName(d.equipos, nombre) {
      var id := d.equipos[IndexOfName(d.equipos, nombre).value].id;
      DropEquipoUnique(d.equipos, id);
      DropMantsOfUnique(d.mantenimientos, id);
      forall i | 0 <= i < |d'.mantenimientos|
        ensures HasId(d'.equipos, d'.mantenimientos[i].equipoId)
      {
        var m := d'.mantenimientos[i];
        assert m in d'.mantenimientos;
        var k :| 0 <= k < |d.mantenimientos| && d.mantenimientos[k] == m;
        var j :| 0 <= j < |d.equipos| && d.equipos[j].id == m.equipoId;
        assert d.equipos[j] in d'.equipos;
        var j' :| 0 <= j' < |d'.equipos| && d'.equipos[j'] == d.equipos[j];
      }
    }
  }

  /** Dropping records keeps ids and names distinct. */
  lemma {:induction false} DropEquipoUnique(eqs: seq<Equipo>, id: int)
    requires UniqueIds(eqs) && UniqueNames(eqs)
    ensures UniqueIds(DropEquipo(eqs, id)) && UniqueNames(DropEquipo(eqs, id))
  {
    if eqs != [] {
      var init := eqs[..|eqs| - 1];
      DropEquipoUnique(init, id);
      var e := eqs[|eqs| - 1];
      var rest := DropEquipo(init, id);
      forall x | x in rest ensures x.id != e.id && x.nombre != e.nombre {
        var k :| 0 <= k < |init| && init[k] == x;
      }
    }
  }

  /** Dropping events keeps event ids distinct. */
  lemma {:induction false} DropMantsOfUnique(ms: seq<Mant>, id: int)
    requires UniqueMantIds(ms)
    ensures UniqueMantIds(DropMantsOf(ms, id))
  {
    if ms != [] {
      var init := ms[..|ms| - 1];
      DropMantsOfUnique(init, id);
      var m := ms[|ms| - 1];
      forall x | x in DropMantsOf(init, id) ensures x.id != m.id {
        var k :| 0 <= k < |init| && init[k] == x;
      }
    }
  }

  /** `reset_mantenimiento`: drop the events of the equipment found by name. */
  function ResetMantenimiento(d: Doc, nombre: string): Doc {
    match IndexOfName(d.equipos, nombre)
    case None => d
    case Some(i) => d.(mantenimientos := DropMantsOf(d.mantenimientos, d.equipos[i].id))
  }

  /**
    `reset_mantenimiento` leaves the equipment and the catalog alone, removes
    exactly that equipment's events (so it has no current event any more) and
    keeps every other event; an unknown name changes nothing.
   */
  lemma ResetMantenimientoSpec(d: Doc, nombre: string)
    ensures var d' := ResetMantenimiento(d, nombre);
      && d'.equipos == d.equipos && d'.tipos == d.tipos
      && (!HasName(d.equipos, nombre) ==> d' == d)
      && (HasName(d.equipos, nombre) ==>
            var id := d.equipos[IndexOfName(d.equipos, nombre).value].id;
            && LastMant(d'.mantenimientos, id) == None
            && (forall m :: m in d'.mantenimientos <==> m in d.mantenimientos && m.equipoId != id)
            && d'.mantenimientos == DropMantsOf(d.mantenimientos, id))
  {
    var d' := ResetMantenimiento(d, nombre);
    if HasName(d.equipos, nombre) {
      var id := d.equipos[IndexOfName(d.equipos, nombre).value].id;
      forall j | 0 <= j < |d'.mantenimientos| ensures d'.mantenimientos[j].equipoId != id {
        assert d'.mantenimientos[j] in d'.mantenimientos;
      }
    }
  }

  /** `reset_mantenimiento` keeps the document consistent. */
  lemma ResetMantenimientoConsistent(d: Doc, nombre: string)
    requires Consistent(d)
    ensures Consistent(ResetMantenimiento(d, nombre))
  {
    var d' := ResetMantenimiento(d, nombre);
    if HasName(d.equipos, nombre) {
      var id := d.equipos[IndexOfName(d.equipos, nombre).value].id;
      DropMantsOfUnique(d.mantenimientos, id);
      forall i | 0 <= i < |d'.mantenimientos|
        ensures HasId(d'.equipos, d'.mantenimientos[i].equipoId)
      {
        assert d'.mantenimientos[i] in d'.mantenimientos;
      }
    }
  }

  // ---------------------------------------------------------------------------
  // set_nota_equipo and rename_equipo

  /** `set_nota_equipo`: store the first 50 characters of the note on the first equipment with that name. */
  function SetNota(d: Doc, nombre: string, nota: string): (Doc, bool) {
    match IndexOfName(d.equipos, nombre)
    case None => (d, false)
    case Some(i) => (d.(equipos := d.equipos[i := d.equipos[i].(nota := Truncate(nota, MaxNota))]), true)
  }

  /**
    `set_nota_equipo` succeeds exactly for a known name and then changes only
    that record's note, to a prefix of the given text at most 50 long (all
    of it when it fits); setting the same note twice is the same as once.
   */
  lemma SetNotaSpec(d: Doc, nombre: string, nota: string)
    ensures var (d', ok) := SetNota(d, nombre, nota);
      && (ok <==> HasName(d.equipos, nombre))
      && (!ok ==> d' == d)
      && (ok ==>
            var i := IndexOfName(d.equipos, nombre).value;
            && |d'.equipos| == |d.equipos|
            && d'.equipos[i] == d.equipos[i].(nota := d'.equipos[i].nota)
            && |d'.equipos[i].nota| <= MaxNota
            && StartsWith(nota, d'.equipos[i].nota)
            && (|nota| <= MaxNota ==> d'.equipos[i].nota == nota)
            && (forall j :: 0 <= j < |d.equipos| && j != i ==> d'.equipos[j] == d.equipos[j])
            && d'.mantenimientos == d.mantenimientos && d'.tipos == d.tipos)
      && SetNota(d', nombre, nota) == (d', ok)
  {
    var (d', ok) := SetNota(d, nombre, nota);
    if ok {
      var i := IndexOfName(d.equipos, nombre).value;
      assert IndexOfName(d'.equipos, nombre) == Some(i) by {
        assert forall j :: 0 <= j < |d.equipos| ==> d'.equipos[j].nombre == d.equipos[j].nombre;
      }
      assert d'.equipos[i := d'.equipos[i].(nota := Truncate(nota, MaxNota))] == d'.equipos;
    }
  }

  /** `set_nota_equipo` keeps the document consistent. */
  lemma SetNotaConsistent(d: Doc, nombre: string, nota: string)
    requires Consistent(d)
    ensures Consistent(SetNota(d, nombre, nota).0)
  {
    var (d', ok) := SetNota(d, nombre, nota);
    if ok {
      forall i | 0 <= i < |d'.mantenimientos|
        ensures HasId(d'.equipos, d'.mantenimientos[i].equipoId)
      {
        var j :| 0 <= j < |d.equipos| && d.equipos[j].id == d.mantenimientos[i].equipoId;
        assert d'.equipos[j].id == d.equipos[j].id;
      }
    }
  }

  /**
    `rename_equipo`: reject a blank new name, then a stripped name another
    equipment already has, then an unknown old name; otherwise give the first
    record with the old name the stripped new name.
   */
  function Rename(d: Doc, oldName: string, newName: string): (Doc, bool, string) {
    var n := Strip(newName);
    if n == [] then (d, false, EmptyNameMsg)
    else if n != oldName && HasName(d.equipos, n) then (d, false, TakenNameMsg)
    else
      match IndexOfName(d.equipos, oldName)
      case None => (d, false, NotFoundMsg)
      case Some(i) => (d.(equipos := d.equipos[i := d.equipos[i].(nombre := n)]), true, RenamedMsg)
  }

  /**
    The checks of `rename_equipo` in their order: a blank new name, then a
    stripped new name another equipment already has, then an unknown old
    name; any failure leaves the document as it was.
   */
  lemma RenameChecks(d: Doc, oldName: string, newName: string)
    ensures var (d', ok, msg) := Rename(d, oldName, newName);
      var n := Strip(newName);
      && (!ok ==> d' == d)
      && (msg == EmptyNameMsg <==> AllSpace(newName))
      && (msg == TakenNameMsg <==> !AllSpace(newName) && n != oldName && HasName(d.equipos, n))
      && (msg == NotFoundMsg <==>
            !AllSpace(newName) && (n == oldName || !HasName(d.equipos, n)) && !HasName(d.equipos, oldName))
      && (ok <==> msg == RenamedMsg)
  {
    StripSpec(newName);
    assert |EmptyNameMsg| == 30 && |TakenNameMsg| == 34 && |RenamedMsg| == 24 && |NotFoundMsg| == 20;
  }

  /**
    A successful rename changes the name of one record, the first with the
    old name, to the stripped new name, which then has no surrounding
    whitespace; ids, every other record, the events and the catalog stay.
   */
  lemma RenameSuccess(d: Doc, oldName: string, newName: string)
    requires Rename(d, oldName, newName).1
    ensures var d' := Rename(d, oldName, newName).0;
      var n := Strip(newName);
      var i := IndexOfName(d.equipos, oldName).value;
      && |d'.equipos| == |d.equipos|
      && d'.equipos[i] == d.equipos[i].(nombre := n)
      && n != [] && !IsSpace(n[0]) && !IsSpace(n[|n| - 1])
      && (forall j :: 0 <= j < |d.equipos| && j != i ==> d'.equipos[j] == d.equipos[j])
      && d'.mantenimientos == d.mantenimientos && d'.tipos == d.tipos
  {
    StripSpec(newName);
  }

  /** Renaming a stripped, existing name to itself succeeds and changes nothing. */
  lemma RenameSelf(d: Doc, a: string)
    requires HasName(d.equipos, a) && a != [] && Strip(a) == a
    ensures Rename(d, a, a) == (d, true, RenamedMsg)
  {
    var i := IndexOfName(d.equipos, a).value;
    assert d.equipos[i := d.equipos[i].(nombre := a)] == d.equipos;
  }

  /** `rename_equipo` keeps the document consistent: names stay unique. */
  lemma RenameConsistent(d: Doc, oldName: string, newName: string)
    requires Consistent(d)
    ensures Consistent(Rename(d, oldName, newName).0)
  {
    var (d', ok, msg) := Rename(d, oldName, newName);
    if ok {
      var n := Strip(newName);
      var i := IndexOfName(d.equipos, oldName).value;
      forall a, b | 0 <= a < b < |d'.equipos| ensures d'.equipos[a].nombre != d'.equipos[b].nombre {
        if a == i || b == i {
          if n != oldName {
            assert !HasName(d.equipos, n);
          }
        }
      }
      forall k | 0 <= k < |d'.mantenimientos|
        ensures HasId(d'.equipos, d'.mantenimientos[k].equipoId)
      {
        var j :| 0 <= j < |d.equipos| && d.equipos[j].id == d.mantenimientos[k].equipoId;
        assert d'.equipos[j].id == d.equipos[j].id;
      }
    }
  }

  // ---------------------------------------------------------------------------
  // change_equipo_position

  /** The slot `change_equipo_position` looks for: one up ("arriba", from slot 1 on) or one down ("abajo"). */
  function Neighbour(direccion: string, pos: int): (r: Option<int>)
    ensures r.Some? ==> r.value == if direccion == "arriba" then pos - 1 else pos + 1
    ensures r.Some? <==> (direccion == "arriba" && pos > 0) || direccion == "abajo"
  {
    if direccion == "arriba" && pos > 0 then Some(pos - 1)
    else if direccion == "abajo" then Some(pos + 1)
    else None
  }

  /**
    `change_equipo_position`: swap slots with the first equipment of the same
    type in the neighbouring slot; False, and no change, when there is none.
   */
  function ChangePosition(d: Doc, nombre: string, direccion: string): (Doc, bool) {
    match IndexOfName(d.equipos, nombre)
    case None => (d, false)
    case Some(i) =>
      var e := d.equipos[i];
      match Neighbour(direccion, e.posicion)
      case None => (d, false)
      case Some(p) =>
        match IndexOfSlot(d.equipos, e.tipo, p)
        case None => (d, false)
        case Some(j) =>
          (d.(equipos := d.equipos[j := d.equipos[j].(posicion := e.posicion)][i := e.(posicion := p)]), true)
  }

  /**
    `change_equipo_position` succeeds exactly when the name is known, the
    direction allows a move and a same-type neighbour sits in the target
    slot; then exactly two records of that type trade slots, nothing else
    changes, and every type keeps the same slots.
   */
  lemma ChangePositionSpec(d: Doc, nombre: string, direccion: string)
    ensures var (d', ok) := ChangePosition(d, nombre, direccion);
      && (!ok ==> d' == d)
      && (ok <==>
            && HasName(d.equipos, nombre)
            && var e := d.equipos[IndexOfName(d.equipos, nombre).value];
            && Neighbour(direccion, e.posicion).Some?
            && IndexOfSlot(d.equipos, e.tipo, Neighbour(direccion, e.posicion).value).Some?)
      && (ok ==>
            var i := IndexOfName(d.equipos, nombre).value;
            var j := IndexOfSlot(d.equipos, d.equipos[i].tipo, Neighbour(direccion, d.equipos[i].posicion).value).value;
            && i != j
            && |d'.equipos| == |d.equipos|
            && d'.equipos[i] == d.equipos[i].(posicion := d.equipos[j].posicion)
            && d'.equipos[j] == d.equipos[j].(posicion := d.equipos[i].posicion)
            && d.equipos[j].tipo == d.equipos[i].tipo
            && (forall k :: 0 <= k < |d.equipos| && k != i && k != j ==> d'.equipos[k] == d.equipos[k])
            && d'.mantenimientos == d.mantenimientos && d'.tipos == d.tipos)
  {
  }

  /** A slot move only trades slots: every type keeps the same multiset of slots. */
  lemma ChangePositionSlots(d: Doc, nombre: string, direccion: string, t: string)
    ensures Slots(ChangePosition(d, nombre, direccion).0.equipos, t) == Slots(d.equipos, t)
  {
    var (d', ok) := ChangePosition(d, nombre, direccion);
    if ok {
      var i := IndexOfName(d.equipos, nombre).value;
      var e := d.equipos[i];
      var p := Neighbour(direccion, e.posicion).value;
      var j := IndexOfSlot(d.equipos, e.tipo, p).value;
      var a := d.equipos;
      var ej := a[j].(posicion := e.posicion);
      var b := a[j := ej];
      assert d'.equipos == b[i := e.(posicion := p)];
      SlotsUpdate(a, j, ej, t);
      SlotsUpdate(b, i, e.(posicion := p), t);
      assert SlotOf(ej, t) == SlotOf(e, t);
      assert SlotOf(e.(posicion := p), t) == SlotOf(a[j], t);
      assert b[i] == e;
      assert Slots(d'.equipos, t) + SlotOf(e, t) == Slots(a, t) + SlotOf(e, t);
      MultisetCancel(Slots(d'.equipos, t), Slots(a, t), SlotOf(e, t));
    }
  }

  /** `change_equipo_position` keeps the document consistent. */
  lemma ChangePositionConsistent(d: Doc, nombre: string, direccion: string)
    requires Consistent(d)
    ensures Consistent(ChangePosition(d, nombre, direccion).0)
  {
    var (d', ok) := ChangePosition(d, nombre, direccion);
    if ok {
      ChangePositionSpec(d, nombre, direccion);
      assert forall k :: 0 <= k < |d.equipos| ==> d'.equipos[k].id == d.equipos[k].id && d'.equipos[k].nombre == d.equipos[k].nombre;
      forall k | 0 <= k < |d'.mantenimientos|
        ensures HasId(d'.equipos, d'.mantenimientos[k].equipoId)
      {
        var j :| 0 <= j < |d.equipos| && d.equipos[j].id == d.mantenimientos[k].equipoId;
        assert d'.equipos[j].id == d.equipos[j].id;
      }
    }
  }

  // ---------------------------------------------------------------------------
  // insert_equipo_at_position

  /** The requested slot moved into 0 .. n. */
  function Clamp(p: int, n: nat): (r: int)
    ensures 0 <= r <= n
    ensures 0 <= p <= n ==> r == p
    ensures p < 0 ==> r == 0
    ensures p > n ==> r == n
  {
    if p < 0 then 0 else if p > n then n else p
  }

  /** One record after making room at slot `p` of type `tipo`. */
  function Bump(e: Equipo, tipo: string, p: int): Equipo {
    if e.tipo == tipo && e.posicion >= p then e.(posicion := e.posicion + 1) else e
  }

  /** Every record of type `tipo` in slot `p` or later moves one slot down. */
  function ShiftFrom(eqs: seq<Equipo>, tipo: string, p: int): (r: seq<Equipo>)
    ensures |r| == |eqs|
  {
    seq(|eqs|, i requires 0 <= i < |eqs| => Bump(eqs[i], tipo, p))
  }

  /** Two lists that agree on every record's type count every type alike. */
  lemma {:induction false} CountSameTipos(a: seq<Equipo>, b: seq<Equipo>, t: string)
    requires |a| == |b| && forall i :: 0 <= i < |a| ==> a[i].tipo == b[i].tipo
    ensures CountTipo(a, t) == CountTipo(b, t)
  {
    if a != [] {
      CountSameTipos(a[..|a| - 1], b[..|b| - 1], t);
    }
  }

  /**
    `insert_equipo_at_position`: refuse a taken name or a full type; otherwise
    clamp the slot, make room there and append the new record in it.
   */
  function InsertAt(d: Doc, tipo: string, nombre: string, seccion: string, p: int): (Doc, bool) {
    if HasName(d.equipos, nombre) then (d, false)
    else
      var n := CountTipo(d.equipos, tipo);
      if n >= MaxPerTipo then (d, false)
      else
        var slot := Clamp(p, n);
        var shifted := ShiftFrom(d.equipos, tipo, slot);
        var e := Equipo(NextId(EquipoIds(shifted)), nombre, seccion, tipo, slot, "");
        (d.(equipos := shifted + [e]), true)
  }

  /**
    `insert_equipo_at_position` succeeds exactly for a new name and a type
    holding fewer than 10; then the type holds one more (so never more than
    10), the new record sits in the clamped slot with id max(ids)+1 and an empty
    note, the records of that type from that slot on move one slot down, and
    every other record, the events and the catalog stay as they were.
   */
  lemma InsertAtSpec(d: Doc, tipo: string, nombre: string, seccion: string, p: int)
    ensures var (d', ok) := InsertAt(d, tipo, nombre, seccion, p);
      var n := CountTipo(d.equipos, tipo);
      && (ok <==> !HasName(d.equipos, nombre) && n < MaxPerTipo)
      && (!ok ==> d' == d)
      && (ok ==>
            var e := d'.equipos[|d.equipos|];
            var slot := Clamp(p, n);
            && |d'.equipos| == |d.equipos| + 1
            && CountTipo(d'.equipos, tipo) == n + 1 <= MaxPerTipo
            && e.nombre == nombre && e.seccion == seccion && e.tipo == tipo && e.nota == ""
            && e.posicion == slot
            && (forall j :: 0 <= j < |d.equipos| ==> d.equipos[j].id < e.id)
            && (d.equipos == [] ==> e.id == 1)
            && (d.equipos != [] ==> exists j :: 0 <= j < |d.equipos| && d.equipos[j].id == e.id - 1)
            && (forall j :: 0 <= j < |d.equipos| ==>
                  d'.equipos[j] == if d.equipos[j].tipo == tipo && d.equipos[j].posicion >= slot
                                   then d.equipos[j].(posicion := d.equipos[j].posicion + 1)
                                   else d.equipos[j])
            && d'.mantenimientos == d.mantenimientos && d'.tipos == d.tipos)
  {
    var (d', ok) := InsertAt(d, tipo, nombre, seccion, p);
    if ok {
      var n := CountTipo(d.equipos, tipo);
      var shifted := ShiftFrom(d.equipos, tipo, Clamp(p, n));
      CountSameTipos(shifted, d.equipos, tipo);
      assert d'.equipos[..|shifted|] == shifted;
      assert EquipoIds(shifted) == EquipoIds(d.equipos);
    }
  }

  /** No two equipment of type `t` share a slot (gaps allowed). */
  predicate DistinctSlots(eqs: seq<Equipo>, t: string) {
    forall i, j :: 0 <= i < j < |eqs| && eqs[i].tipo == t && eqs[j].tipo == t ==> eqs[i].posicion != eqs[j].posicion
  }

  /**
    Inserting at a position never makes two equipment of a type share a
    slot, whatever gaps the slots have (deletions and `save_equipo` leave
    gaps): the records from the slot on move down together and the new one
    takes the freed slot.
   */
  lemma InsertAtDistinct(d: Doc, tipo: string, nombre: string, seccion: string, p: int, t: string)
    requires DistinctSlots(d.equipos, t)
    ensures DistinctSlots(InsertAt(d, tipo, nombre, seccion, p).0.equipos, t)
  {
    var (d', ok) := InsertAt(d, tipo, nombre, seccion, p);
    if ok {
      InsertAtSpec(d, tipo, nombre, seccion, p);
    }
  }

  /**
    The slots of a type are distinct and run from 0 to one less than the
    number of equipment of that type.
   */
  predicate Slotted(eqs: seq<Equipo>, t: string) {
    && DistinctSlots(eqs, t)
    && (forall i :: 0 <= i < |eqs| && eqs[i].tipo == t ==> 0 <= eqs[i].posicion < CountTipo(eqs, t))
  }

  /** Inserting at a position keeps every type's slots distinct and contiguous. */
  lemma InsertAtSlotted(d: Doc, tipo: string, nombre: string, seccion: string, p: int, t: string)
    requires Slotted(d.equipos, t)
    ensures Slotted(InsertAt(d, tipo, nombre, seccion, p).0.equipos, t)
  {
    var (d', ok) := InsertAt(d, tipo, nombre, seccion, p);
    if ok {
      var slot := Clamp(p, CountTipo(d.equipos, tipo));
      var e := d'.equipos[|d.equipos|];
      assert d'.equipos == ShiftFrom(d.equipos, tipo, slot) + [e];
      if t == tipo {
        ShiftSlotted(d.equipos, tipo, slot, e);
      } else {
        ShiftOtherSlotted(d.equipos, tipo, slot, e, t);
      }
    }
  }

  /** Making room at `slot` and filling it keeps the type's slots distinct and contiguous. */
  lemma ShiftSlotted(eqs: seq<Equipo>, tipo: string, slot: int, e: Equipo)
    requires Slotted(eqs, tipo) && 0 <= slot <= CountTipo(eqs, tipo)
    requires e.tipo == tipo && e.posicion == slot
    ensures Slotted(ShiftFrom(eqs, tipo, slot) + [e], tipo)
  {
    var shifted := ShiftFrom(eqs, tipo, slot);
    var r := shifted + [e];
    var n := CountTipo(eqs, tipo);
    CountSameTipos(shifted, eqs, tipo);
    assert r[..|r| - 1] == shifted;
    assert CountTipo(r, tipo) == n + 1;
    forall i, j | 0 <= i < j < |r| && r[i].tipo == tipo && r[j].tipo == tipo
      ensures r[i].posicion != r[j].posicion
    {
      assert r[i] == Bump(eqs[i], tipo, slot);
      if j < |eqs| {
        assert r[j] == Bump(eqs[j], tipo, slot);
      }
    }
    forall i | 0 <= i < |r| && r[i].tipo == tipo
      ensures 0 <= r[i].posicion < n + 1
    {
      if i < |eqs| {
        assert r[i] == Bump(eqs[i], tipo, slot);
      }
    }
  }

  /** Making room in one type leaves the slots of every other type as they were. */
  lemma ShiftOtherSlotted(eqs: seq<Equipo>, tipo: string, slot: int, e: Equipo, t: string)
    requires Slotted(eqs, t) && t != tipo && e.tipo == tipo
    ensures Slotted(ShiftFrom(eqs, tipo, slot) + [e], t)
  {
    var shifted := ShiftFrom(eqs, tipo, slot);
    var r := shifted + [e];
    CountSameTipos(shifted, eqs, t);
    assert r[..|r| - 1] == shifted;
    assert CountTipo(r, t) == CountTipo(eqs, t);
  }

  /** `insert_equipo_at_position` keeps the document consistent. */
  lemma InsertAtConsistent(d: Doc, tipo: string, nombre: string, seccion: string, p: int)
    requires Consistent(d)
    ensures Consistent(InsertAt(d, tipo, nombre, seccion, p).0)
  {
    var (d', ok) := InsertAt(d, tipo, nombre, seccion, p);
    if ok {
      InsertAtSpec(d, tipo, nombre, seccion, p);
      assert forall k :: 0 <= k < |d.equipos| ==> d'.equipos[k].id == d.equipos[k].id && d'.equipos[k].nombre == d.equipos[k].nombre;
      forall k | 0 <= k < |d'.mantenimientos|
        ensures HasId(d'.equipos, d'.mantenimientos[k].equipoId)
      {
        var j :| 0 <= j < |d.equipos| && d.equipos[j].id == d.mantenimientos[k].equipoId;
        assert d'.equipos[j].id == d.equipos[j].id;
      }
    }
  }

  // ---------------------------------------------------------------------------
  // borrar_historial_entre_fechas

  /** `desde <= fecha <= hasta` on the text of the dates. */
  predicate InRange(fecha: string, desde: string, hasta: string) {
    LexLe(desde, fecha) && LexLe(fecha, hasta)
  }

  /** The events kept by the purge (a list comprehension). */
  function DropInRange(ms: seq<Mant>, desde: string, hasta: string): (r: seq<Mant>)
    ensures |r| <= |ms|
    ensures forall m :: m in r <==> m in ms && !InRange(m.fecha, desde, hasta)
  {
    if ms == [] then []
    else
      var rest := DropInRange(ms[..|ms| - 1], desde, hasta);
      assert ms == ms[..|ms| - 1] + [ms[|ms| - 1]];
      if !InRange(ms[|ms| - 1].fecha, desde, hasta) then rest + [ms[|ms| - 1]] else rest
  }

  /** How many events fall in the interval. */
  function CountInRange(ms: seq<Mant>, desde: string, hasta: string): nat {
    if ms == [] then 0
    else CountInRange(ms[..|ms| - 1], desde, hasta) + (if InRange(ms[|ms| - 1].fecha, desde, hasta) then 1 else 0)
  }

  /** The purge keeps the survivors in order: it distributes over concatenation. */
  lemma {:induction false} DropInRangeConcat(a: seq<Mant>, b: seq<Mant>, desde: string, hasta: string)
    ensures DropInRange(a + b, desde, hasta) == DropInRange(a, desde, hasta) + DropInRange(b, desde, hasta)
    decreases |b|
  {
    if b != [] {
      var b' := b[..|b| - 1];
      assert (a + b)[..|a + b| - 1] == a + b';
      DropInRangeConcat(a, b', desde, hasta);
    } else {
      assert a + b == a;
    }
  }

  /** Every event is either kept or counted as removed. */
  lemma {:induction false} DropInRangeCount(ms: seq<Mant>, desde: string, hasta: string)
    ensures |DropInRange(ms, desde, hasta)| + CountInRange(ms, desde, hasta) == |ms|
  {
    if ms != [] {
      DropInRangeCount(ms[..|ms| - 1], desde, hasta);
    }
  }

  /** `borrar_historial_entre_fechas`: drop the events dated in [desde, hasta] and say how many went. */
  function BorrarHistorial(d: Doc, desde: string, hasta: string): (Doc, int) {
    var kept := DropInRange(d.mantenimientos, desde, hasta);
    (d.(mantenimientos := kept), |d.mantenimientos| - |kept|)
  }

  /**
    The purge returns the number of events dated inside the interval, keeps
    exactly the events outside it and leaves equipment and catalog alone.
   */
  lemma BorrarHistorialSpec(d: Doc, desde: string, hasta: string)
    ensures var (d', borrados) := BorrarHistorial(d, desde, hasta);
      && borrados == CountInRange(d.mantenimientos, desde, hasta)
      && borrados == |d.mantenimientos| - |d'.mantenimientos|
      && (forall m :: m in d'.mantenimientos <==> m in d.mantenimientos && !InRange(m.fecha, desde, hasta))
      && d'.mantenimientos == DropInRange(d.mantenimientos, desde, hasta)
      && d'.equipos == d.equipos && d'.tipos == d.tipos
  {
    DropInRangeCount(d.mantenimientos, desde, hasta);
  }

  /** Dropping events keeps event ids distinct. */
  lemma {:induction false} DropInRangeUnique(ms: seq<Mant>, desde: string, hasta: string)
    requires UniqueMantIds(ms)
    ensures UniqueMantIds(DropInRange(ms, desde, hasta))
  {
    if ms != [] {
      var init := ms[..|ms| - 1];
      DropInRangeUnique(init, desde, hasta);
      var m := ms[|ms| - 1];
      forall x | x in DropInRange(init, desde, hasta) ensures x.id != m.id {
        var k :| 0 <= k < |init| && init[k] == x;
      }
    }
  }

  /** The purge keeps the document consistent. */
  lemma BorrarHistorialConsistent(d: Doc, desde: string, hasta: string)
    requires Consistent(d)
    ensures Consistent(BorrarHistorial(d, desde, hasta).0)
  {
    var d' := BorrarHistorial(d, desde, hasta).0;
    DropInRangeUnique(d.mantenimientos, desde, hasta);
    forall i | 0 <= i < |d'.mantenimientos|
      ensures HasId(d'.equipos, d'.mantenimientos[i].equipoId)
    {
      assert d'.mantenimientos[i] in d'.mantenimientos;
    }
  }

  // ---------------------------------------------------------------------------
  // The initial document

  /** The catalog `_initialize_default_data` installs. */
  const DefaultTipos: seq<Tipo> := [
      Tipo(1, "carne", "\U{1F969} Murales Carne", "positivo"),
      Tipo(2, "pescado", "\U{1F41F} Murales Pescado", "positivo"),
      Tipo(3, "verdura", "\U{1F966} Murales Verdura", "positivo"),
      Tipo(4, "lacteos", "\U{1F95B} Murales L\U{E1}cteos", "positivo"),
      Tipo(5, "charcuteria", "\U{1F953} Murales Charcuter\U{ED}a", "positivo"),
      Tipo(6, "bebidas_frias", "\U{1F964} Bebidas fr\U{ED}as", "positivo"),
      Tipo(7, "leche_fresca", "\U{1F95B} Leche fresca", "positivo"),
      Tipo(8, "zumos", "\U{1F9C3} Zumos", "positivo"),
      Tipo(9, "platos_preparados", "\U{1F37D}\U{FE0F} Platos preparados", "positivo"),
      Tipo(10, "vitrina_lpc_ls", "\U{1F957} Vitrina LPC libre servicio", "positivo"),
      Tipo(11, "mostrador_lpc", "\U{1F371} Mostrador LPC", "positivo"),
      Tipo(12, "murales_lpc", "\U{1F957} Murales listos para comer", "positivo"),
      Tipo(13, "mural_sushi", "\U{1F363} Mural Sushi", "positivo"),
      Tipo(14, "mural_ensaladas", "\U{1F957} Mural Ensaladas", "positivo"),
      Tipo(15, "camaras_refrigerado", "\U{1F6AA} C\U{E1}maras de refrigerado", "positivo"),
      Tipo(16, "central_frigorifica_positiva", "Central frigor\U{ED}fica positiva", "positivo"),
      Tipo(17, "aacc_lt_12", "AACC < 12 kW", "aacc"),
      Tipo(18, "aacc_gt_12", "AACC \U{2265} 12 kW", "aacc"),
      Tipo(19, "murales_vitrinas_calientes", "Murales y vitrinas calientes", "caliente"),
      Tipo(20, "fosas_septicas", "Fosas s\U{E9}pticas", "fosas"),
      Tipo(21, "isla_carne", "\U{1F969} Isla Carne Congelada", "negativo"),
      Tipo(22, "isla_verdura", "\U{1F966} Isla Verdura Congelada", "negativo"),
      Tipo(23, "armario_verdura", "\U{1F5C4}\U{FE0F} Armario Verdura", "negativo"),
      Tipo(24, "isla_pescado", "\U{1F41F} Isla Pescado Congelado", "negativo"),
      Tipo(25, "isla_helados", "\U{1F368} Islas Helados", "negativo"),
      Tipo(26, "armario_pescado_congelado", "\U{1F41F} Armarios Pescado Congelado", "negativo"),
      Tipo(27, "isla_marisco", "\U{1F990} Isla de Marisco", "negativo"),
      Tipo(28, "isla_tartas", "\U{1F370} Isla de Tartas", "negativo"),
      Tipo(29, "camaras_congelado", "\U{1F6AA} C\U{E1}maras de congelado", "negativo"),
      Tipo(30, "central_frigorifica_negativa", "Central frigor\U{ED}fica negativa", "negativo")
    ]

  /** What `_initialize_default_data` leaves: no equipment, no events, the catalog. */
  const InitialDoc: Doc := Doc([], [], DefaultTipos)

  const Secciones: set<string> := {"positivo", "aacc", "caliente", "fosas", "negativo"}

  /** The catalog has 30 types numbered 1 to 30 in order, each in one of the five sections. */
  lemma DefaultTiposSpec()
    ensures |DefaultTipos| == 30
    ensures forall i :: 0 <= i < 30 ==> DefaultTipos[i].id == i + 1 && DefaultTipos[i].seccion in Secciones
    ensures Consistent(InitialDoc)
  {
  }
}
