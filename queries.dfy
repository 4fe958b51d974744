/**
  The read-only answers the store gives about equipment and the catalog,
  as functions of the document.
 */
module Queries {
  import opened Wrappers
  import opened Text
  import opened Records
  import opened Document

  /** What `get_equipos_por_tipo` reports per name: the date and interval of the current event, if any. */
  datatype Ficha = Ficha(seccion: string, date: Option<string>, freq: Option<int>, posicion: int, nota: string)

  /** What `get_equipo_data` reports. */
  datatype EquipoData = EquipoData(nombre: string, seccion: string, date: Option<string>, freq: Option<int>)

  function DateOf(cur: Option<Mant>): Option<string> {
    if cur.Some? then Some(cur.value.fecha) else None
  }

  function FreqOf(cur: Option<Mant>): Option<int> {
    if cur.Some? then Some(cur.value.frecuencia) else None
  }

  function FichaOf(e: Equipo, ms: seq<Mant>): Ficha {
    var cur := LastMant(ms, e.id);
    Ficha(e.seccion, DateOf(cur), FreqOf(cur), e.posicion, e.nota)
  }

  /**
    `get_equipos_por_tipo`: name to record for the equipment of one type, in
    list order, a later record overwriting an earlier one with the same name.
   */
  function EquiposPorTipo(eqs: seq<Equipo>, ms: seq<Mant>, tipo: string): (r: map<string, Ficha>)
    ensures forall n :: n in r <==> exists i :: 0 <= i < |eqs| && eqs[i].tipo == tipo && eqs[i].nombre == n
  {
    if eqs == [] then map[]
    else
      var rest := EquiposPorTipo(eqs[..|eqs| - 1], ms, tipo);
      var e := eqs[|eqs| - 1];
      assert forall i :: 0 <= i < |eqs| - 1 ==> eqs[i] == eqs[..|eqs| - 1][i];
      if e.tipo == tipo then rest[e.nombre := FichaOf(e, ms)] else rest
  }

  /**
    With unique names each equipment of the type is reported under its own
    name, with the date and interval of its current (last-appended) event,
    or none when it has no event.
   */
  lemma {:induction false} EquiposPorTipoSpec(eqs: seq<Equipo>, ms: seq<Mant>, tipo: string, i: int)
    requires UniqueNames(eqs) && 0 <= i < |eqs| && eqs[i].tipo == tipo
    ensures var r := EquiposPorTipo(eqs, ms, tipo);
      && eqs[i].nombre in r
      && r[eqs[i].nombre] == FichaOf(eqs[i], ms)
      && (r[eqs[i].nombre].date.None? <==> forall j :: 0 <= j < |ms| ==> ms[j].equipoId != eqs[i].id)
  {
    var n := |eqs|;
    var init, e := eqs[..n - 1], eqs[n - 1];
    var rest := EquiposPorTipo(init, ms, tipo);
    assert EquiposPorTipo(eqs, ms, tipo) == if e.tipo == tipo then rest[e.nombre := FichaOf(e, ms)] else rest;
    if i < n - 1 {
      assert init[i] == eqs[i];
      assert UniqueNames(init);
      EquiposPorTipoSpec(init, ms, tipo, i);
      assert e.nombre != eqs[i].nombre;
    }
  }

  /** `get_equipo_data`: the first equipment with that name and its current event, or None. */
  function GetEquipoData(d: Doc, nombre: string): (r: Option<EquipoData>)
    ensures r.None? <==> !HasName(d.equipos, nombre)
  {
    match IndexOfName(d.equipos, nombre)
    case None => None
    case Some(i) =>
      var e := d.equipos[i];
      var cur := LastMant(d.mantenimientos, e.id);
      Some(EquipoData(e.nombre, e.seccion, DateOf(cur), FreqOf(cur)))
  }

  /**
    The data reported for a name belong to the first equipment with that
    name, and the date is that of an event of that equipment after which
    the list holds no other event of it.
   */
  lemma GetEquipoDataSpec(d: Doc, nombre: string)
    requires HasName(d.equipos, nombre)
    ensures var r := GetEquipoData(d, nombre).value;
      var e := d.equipos[IndexOfName(d.equipos, nombre).value];
      var ms := d.mantenimientos;
      && r.nombre == nombre && r.seccion == e.seccion
      && (r.date.None? <==> r.freq.None?)
      && (r.date.None? <==> forall j :: 0 <= j < |ms| ==> ms[j].equipoId != e.id)
      && (r.date.Some? ==>
            exists j :: 0 <= j < |ms| && ms[j].equipoId == e.id
              && ms[j].fecha == r.date.value && ms[j].frecuencia == r.freq.value
              && forall k :: j < k < |ms| ==> ms[k].equipoId != e.id)
  {
  }

  /** After `save_mantenimiento` succeeds, the equipment reports the event just saved. */
  lemma SaveThenGetEquipoData(d: Doc, nombre: string, fecha: string, frecuencia: int)
    requires HasName(d.equipos, nombre)
    ensures var r := GetEquipoData(SaveMantenimiento(d, nombre, fecha, frecuencia).0, nombre);
      r.Some? && r.value.date == Some(fecha) && r.value.freq == Some(frecuencia)
  {
    SaveMantenimientoSpec(d, nombre, fecha, frecuencia);
  }

  /** `get_nota_equipo`: the note of the first equipment with that name, "" for an unknown name. */
  function GetNota(d: Doc, nombre: string): string {
    match IndexOfName(d.equipos, nombre)
    case None => ""
    case Some(i) => d.equipos[i].nota
  }

  /** Reading a note back after setting it gives the stored prefix: the whole note when it fits in 50. */
  lemma SetThenGetNota(d: Doc, nombre: string, nota: string)
    requires HasName(d.equipos, nombre)
    ensures var got := GetNota(SetNota(d, nombre, nota).0, nombre);
      && got == Truncate(nota, MaxNota)
      && |got| <= MaxNota && StartsWith(nota, got)
      && (|nota| <= MaxNota ==> got == nota)
  {
    var d' := SetNota(d, nombre, nota).0;
    var i := IndexOfName(d.equipos, nombre).value;
    assert IndexOfName(d'.equipos, nombre) == Some(i) by {
      assert forall j :: 0 <= j < |d.equipos| ==> d'.equipos[j].nombre == d.equipos[j].nombre;
    }
  }

  /** An unknown name has the empty note. */
  lemma GetNotaUnknown(d: Doc, nombre: string)
    requires !HasName(d.equipos, nombre)
    ensures GetNota(d, nombre) == ""
  {
  }

  /** `get_tipos_por_seccion`: (code, display name) of the catalog's types in one section, in order. */
  function TiposPorSeccion(ts: seq<Tipo>, seccion: string): (r: seq<(string, string)>)
    ensures |r| <= |ts|
    ensures forall p :: p in r <==> exists t :: t in ts && t.seccion == seccion && p == (t.codigo, t.nombreMostrar)
  {
    if ts == [] then []
    else
      var rest := TiposPorSeccion(ts[..|ts| - 1], seccion);
      var t := ts[|ts| - 1];
      assert ts == ts[..|ts| - 1] + [t];
      if t.seccion == seccion then rest + [(t.codigo, t.nombreMostrar)] else rest
  }

  /** One type alone gives its pair exactly when it belongs to the section. */
  lemma TiposPorSeccionSingle(t: Tipo, seccion: string)
    ensures TiposPorSeccion([t], seccion) == if t.seccion == seccion then [(t.codigo, t.nombreMostrar)] else []
  {
    assert [t][..0] == [];
  }

  /**
    The comprehension goes through the catalog in order: the pairs of a
    concatenation are the pairs of each part, one after the other.
   */
  lemma {:induction false} TiposPorSeccionConcat(a: seq<Tipo>, b: seq<Tipo>, seccion: string)
    ensures TiposPorSeccion(a + b, seccion) == TiposPorSeccion(a, seccion) + TiposPorSeccion(b, seccion)
    decreases |b|
  {
    if b == [] {
      assert a + b == a;
    } else {
      var b' := b[..|b| - 1];
      assert (a + b)[..|a + b| - 1] == a + b';
      assert (a + b)[|a + b| - 1] == b[|b| - 1];
      TiposPorSeccionConcat(a, b', seccion);
    }
  }

  /** `get_todos_los_tipos`: (code, display name, section) of every type, in order. */
  function TodosLosTipos(ts: seq<Tipo>): seq<(string, string, string)> {
    seq(|ts|, i requires 0 <= i < |ts| => (ts[i].codigo, ts[i].nombreMostrar, ts[i].seccion))
  }

  /** The (code, display name) of the rows listed for one section, in order. */
  function PairsIn(rows: seq<(string, string, string)>, seccion: string): seq<(string, string)> {
    if rows == [] then []
    else
      var last := rows[|rows| - 1];
      PairsIn(rows[..|rows| - 1], seccion) + (if last.2 == seccion then [(last.0, last.1)] else [])
  }

  /**
    The two catalog queries agree: the types of one section are the entries
    of the full listing whose section matches, in the listing's order.
   */
  lemma {:induction false} TiposPorSeccionTodos(ts: seq<Tipo>, seccion: string)
    ensures |TodosLosTipos(ts)| == |ts|
    ensures TiposPorSeccion(ts, seccion) == PairsIn(TodosLosTipos(ts), seccion)
  {
    if ts != [] {
      var init := ts[..|ts| - 1];
      TiposPorSeccionTodos(init, seccion);
      assert TodosLosTipos(ts)[..|ts| - 1] == TodosLosTipos(init);
    }
  }

  /** `get_all_equipos`: (name, section, type, slot) of every equipment, in order. */
  function AllEquipos(eqs: seq<Equipo>): seq<(string, string, string, int)> {
    seq(|eqs|, i requires 0 <= i < |eqs| => (eqs[i].nombre, eqs[i].seccion, eqs[i].tipo, eqs[i].posicion))
  }

  /**
    The per-type view and the full listing agree: a name is listed for a
    type exactly when some row of the full listing has that name and type.
   */
  lemma EquiposPorTipoAll(eqs: seq<Equipo>, ms: seq<Mant>, tipo: string, n: string)
    ensures |AllEquipos(eqs)| == |eqs|
    ensures n in EquiposPorTipo(eqs, ms, tipo) <==>
      exists i :: 0 <= i < |eqs| && AllEquipos(eqs)[i].0 == n && AllEquipos(eqs)[i].2 == tipo
  {
    var all := AllEquipos(eqs);
    assert forall i :: 0 <= i < |eqs| ==> all[i].0 == eqs[i].nombre && all[i].2 == eqs[i].tipo;
  }

  /**
    After `save_equipo` on a known name the full listing shows the new
    section, type and slot in that record's row and every other row unchanged.
   */
  lemma SaveThenAllEquipos(d: Doc, nombre: string, seccion: string, tipo: string, posicion: int)
    requires HasName(d.equipos, nombre)
    ensures var before := AllEquipos(d.equipos);
      var after := AllEquipos(SaveEquipo(d, nombre, seccion, tipo, posicion).equipos);
      var i := IndexOfName(d.equipos, nombre).value;
      && |after| == |before|
      && after[i] == (nombre, seccion, tipo, posicion)
      && forall j :: 0 <= j < |before| && j != i ==> after[j] == before[j]
  {
    SaveEquipoExisting(d, nombre, seccion, tipo, posicion);
  }
}
