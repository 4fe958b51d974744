/**
  `StorageService`: the store as an object whose three lists its methods
  update in place. Every method is proved to leave the document (and return
  the value) that the matching function of module Document, Queries, Search
  or History gives, so the lemmas proved there hold of the object.
  Persisting (`save`) happens after each change and is not modelled.
 */
module Store {
  import opened Wrappers
  import opened Text
  import opened Dates
  import opened Records
  import opened Document
  import opened Queries
  import opened Search
  import opened History
  import opened Ranking

  class StorageService {
    var equipos: seq<Equipo>
    var mantenimientos: seq<Mant>
    var tipos: seq<Tipo>

    /** `self.data`. */
    function Data(): Doc
      reads this
    {
      Doc(equipos, mantenimientos, tipos)
    }

    /** A new store holds three empty lists until it is loaded. */
    constructor ()
      ensures Data() == Doc([], [], [])
    {
      equipos, mantenimientos, tipos := [], [], [];
    }

    /** `_initialize_default_data`: no equipment, no events, the 30-type catalog. */
    method InitializeDefaultData()
      modifies this
      ensures Data() == InitialDoc
    {
      equipos, mantenimientos, tipos := [], [], DefaultTipos;
    }

    /** `importar_datos_json`: the parsed document replaces the data; a text that does not parse changes nothing. */
    method ImportarDatos(parsed: Option<Doc>) returns (ok: bool)
      modifies this
      ensures ok <==> parsed.Some?
      ensures ok ==> Data() == parsed.value
      ensures !ok ==> Data() == old(Data())
    {
      if parsed.None? {
        return false;
      }
      equipos, mantenimientos, tipos := parsed.value.equipos, parsed.value.mantenimientos, parsed.value.tipos;
      return true;
    }

    /** The scan `for eq in equipos: if eq["nombre"] == nombre` every operation starts with. */
    method FindByName(nombre: string) returns (r: Option<nat>)
      ensures r == IndexOfName(equipos, nombre)
    {
      var i := 0;
      while i < |equipos|
        invariant 0 <= i <= |equipos|
        invariant forall j :: 0 <= j < i ==> equipos[j].nombre != nombre
      {
        if equipos[i].nombre == nombre {
          return Some(i);
        }
        i := i + 1;
      }
      return None;
    }

    /** The scan for the first equipment of type `tipo` in slot `pos`. */
    method FindBySlot(tipo: string, pos: int) returns (r: Option<nat>)
      ensures r == IndexOfSlot(equipos, tipo, pos)
    {
      var i := 0;
      while i < |equipos|
        invariant 0 <= i <= |equipos|
        invariant forall j :: 0 <= j < i ==> !(equipos[j].tipo == tipo && equipos[j].posicion == pos)
      {
        if equipos[i].tipo == tipo && equipos[i].posicion == pos {
          return Some(i);
        }
        i := i + 1;
      }
      return None;
    }

    method SaveEquipo(nombre: string, seccion: string, tipo: string, posicion: int) returns (ok: bool)
      modifies this
      ensures ok && Data() == Document.SaveEquipo(old(Data()), nombre, seccion, tipo, posicion)
    {
      var found := FindByName(nombre);
      if found.Some? {
        var i := found.value;
        equipos := equipos[i := equipos[i].(seccion := seccion, tipo := tipo, posicion := posicion)];
        return true;
      }
      var nuevoId := NextId(EquipoIds(equipos));
      equipos := equipos + [Equipo(nuevoId, nombre, seccion, tipo, posicion, "")];
      return true;
    }

    method SaveMantenimiento(nombre: string, fecha: string, frecuencia: int) returns (ok: bool)
      modifies this
      ensures (Data(), ok) == Document.SaveMantenimiento(old(Data()), nombre, fecha, frecuencia)
    {
      var found := FindByName(nombre);
      if found.None? {
        return false;
      }
      var nuevoId := NextId(MantIds(mantenimientos));
      mantenimientos := mantenimientos + [Mant(nuevoId, equipos[found.value].id, fecha, frecuencia)];
      return true;
    }

    method DeleteEquipo(nombre: string) returns (ok: bool)
      modifies this
      ensures ok && Data() == Document.DeleteEquipo(old(Data()), nombre)
    {
      var found := FindByName(nombre);
      if found.Some? {
        var id := equipos[found.value].id;
        mantenimientos := DropMantsOf(mantenimientos, id);
        equipos := DropEquipo(equipos, id);
      }
      return true;
    }

    method ResetMantenimiento(nombre: string) returns (ok: bool)
      modifies this
      ensures ok && Data() == Document.ResetMantenimiento(old(Data()), nombre)
    {
      var found := FindByName(nombre);
      if found.Some? {
        mantenimientos := DropMantsOf(mantenimientos, equipos[found.value].id);
      }
      return true;
    }

    method SetNota(nombre: string, nota: string) returns (ok: bool)
      modifies this
      ensures (Data(), ok) == Document.SetNota(old(Data()), nombre, nota)
    {
      var found := FindByName(nombre);
      if found.None? {
        return false;
      }
      var i := found.value;
      equipos := equipos[i := equipos[i].(nota := Truncate(nota, MaxNota))];
      return true;
    }

    /** The scan of `rename_equipo` for another equipment already called `n`. */
    method Collides(n: string, oldName: string) returns (taken: bool)
      ensures taken <==> n != oldName && HasName(equipos, n)
    {
      var i := 0;
      while i < |equipos|
        invariant 0 <= i <= |equipos|
        invariant n != oldName ==> forall j :: 0 <= j < i ==> equipos[j].nombre != n
      {
        if equipos[i].nombre == n && n != oldName {
          return true;
        }
        i := i + 1;
      }
      return false;
    }

    method Rename(oldName: string, newName: string) returns (ok: bool, msg: string)
      modifies this
      ensures (Data(), ok, msg) == Document.Rename(old(Data()), oldName, newName)
    {
      var n := Strip(newName);
      if n == [] {
        return false, EmptyNameMsg;
      }
      var taken := Collides(n, oldName);
      if taken {
        return false, TakenNameMsg;
      }
      var found := FindByName(oldName);
      if found.None? {
        return false, NotFoundMsg;
      }
      var k := found.value;
      equipos := equipos[k := equipos[k].(nombre := n)];
      return true, RenamedMsg;
    }

    method ChangePosition(nombre: string, direccion: string) returns (ok: bool)
      modifies this
      ensures (Data(), ok) == Document.ChangePosition(old(Data()), nombre, direccion)
    {
      var found := FindByName(nombre);
      if found.None? {
        return false;
      }
      var i := found.value;
      var e := equipos[i];
      var target := Neighbour(direccion, e.posicion);
      if target.None? {
        return false;
      }
      var other := FindBySlot(e.tipo, target.value);
      if other.None? {
        return false;
      }
      var j := other.value;
      equipos := equipos[j := equipos[j].(posicion := e.posicion)];
      equipos := equipos[i := e.(posicion := target.value)];
      return true;
    }

    method InsertAt(tipo: string, nombre: string, seccion: string, posicion: int) returns (ok: bool)
      modifies this
      ensures (Data(), ok) == Document.InsertAt(old(Data()), tipo, nombre, seccion, posicion)
    {
      var found := FindByName(nombre);
      if found.Some? {
        return false;
      }
      var count := CountTipo(equipos, tipo);
      if count >= MaxPerTipo {
        return false;
      }
      var slot := Clamp(posicion, count);
      var eqs := equipos;
      var k := 0;
      while k < |eqs|
        invariant 0 <= k <= |eqs| && |eqs| == |equipos|
        invariant forall j :: 0 <= j < k ==> eqs[j] == Bump(equipos[j], tipo, slot)
        invariant forall j :: k <= j < |eqs| ==> eqs[j] == equipos[j]
      {
        if eqs[k].tipo == tipo && eqs[k].posicion >= slot {
          eqs := eqs[k := eqs[k].(posicion := eqs[k].posicion + 1)];
        }
        k := k + 1;
      }
      assert eqs == ShiftFrom(equipos, tipo, slot);
      var nuevoId := NextId(EquipoIds(eqs));
      equipos := eqs + [Equipo(nuevoId, nombre, seccion, tipo, slot, "")];
      return true;
    }

    method BorrarHistorial(desde: string, hasta: string) returns (borrados: int)
      modifies this
      ensures (Data(), borrados) == Document.BorrarHistorial(old(Data()), desde, hasta)
    {
      var inicial := |mantenimientos|;
      mantenimientos := DropInRange(mantenimientos, desde, hasta);
      borrados := inicial - |mantenimientos|;
    }

    method GetEquiposPorTipo(tipo: string) returns (r: map<string, Ficha>)
      ensures r == EquiposPorTipo(equipos, mantenimientos, tipo)
    {
      r := map[];
      var i := 0;
      while i < |equipos|
        invariant 0 <= i <= |equipos|
        invariant r == EquiposPorTipo(equipos[..i], mantenimientos, tipo)
      {
        var e := equipos[i];
        assert equipos[..i + 1][..i] == equipos[..i];
        assert equipos[..i + 1][i] == e;
        if e.tipo == tipo {
          var ultimo := LastMant(mantenimientos, e.id);
          r := r[e.nombre := Ficha(e.seccion, DateOf(ultimo), FreqOf(ultimo), e.posicion, e.nota)];
        }
        i := i + 1;
      }
      assert equipos[..|equipos|] == equipos;
    }

    method GetEquipoData(nombre: string) returns (r: Option<EquipoData>)
      ensures r == Queries.GetEquipoData(Data(), nombre)
    {
      var found := FindByName(nombre);
      if found.None? {
        return None;
      }
      var e := equipos[found.value];
      var ultimo := LastMant(mantenimientos, e.id);
      return Some(EquipoData(e.nombre, e.seccion, DateOf(ultimo), FreqOf(ultimo)));
    }

    method GetNota(nombre: string) returns (r: string)
      ensures r == Queries.GetNota(Data(), nombre)
    {
      var found := FindByName(nombre);
      if found.None? {
        return "";
      }
      return equipos[found.value].nota;
    }

    method BuscarEquipos(query: string, norm: string -> string) returns (r: seq<Hit>)
      ensures r == Buscar(equipos, query, norm)
    {
      if query == [] {
        return [];
      }
      var q := norm(Strip(query));
      if q == [] {
        return [];
      }
      var resultados: seq<Scored> := [];
      var i := 0;
      while i < |equipos|
        invariant 0 <= i <= |equipos|
        invariant resultados == Candidates(equipos[..i], q, norm)
      {
        var e := equipos[i];
        assert equipos[..i + 1][..i] == equipos[..i];
        assert equipos[..i + 1][i] == e;
        var puntuacion := Score(norm(e.nombre), q);
        if puntuacion > 0 {
          resultados := resultados + [Scored(e, puntuacion)];
        }
        i := i + 1;
      }
      assert equipos[..|equipos|] == equipos;
      var ranked := SortDesc(resultados, ScoreKey);
      r := Hits(Take(ranked, MaxResults));
    }

    /**
      The inner loop of `obtener_historial_filtrado` for one equipment: add
      each kept event to its name's list and to the count, or stop where the
      body raises.
     */
    method CollectEvents(e: Equipo, cutoff: string, q: Query, h0: map<string, seq<Date>>, t0: int, ghost ps0: seq<(string, Date)>)
      returns (failed: bool, h: map<string, seq<Date>>, t: int, ghost ps: seq<(string, Date)>)
      requires h0 == Group(ps0) && t0 == |ps0|
      ensures failed <==> EventsOf(e, mantenimientos, cutoff, q).None?
      ensures !failed ==> ps == ps0 + Tag(e.nombre, EventsOf(e, mantenimientos, cutoff, q).value)
      ensures h == Group(ps) && t == |ps|
    {
      h, t, ps := h0, t0, ps0;
      ghost var ds: seq<Date> := [];
      var j := 0;
      while j < |mantenimientos|
        invariant 0 <= j <= |mantenimientos|
        invariant EventsOf(e, mantenimientos[..j], cutoff, q) == Some(ds)
        invariant ps == ps0 + Tag(e.nombre, ds)
        invariant h == Group(ps) && t == |ps|
      {
        var m := mantenimientos[j];
        EventsOfStep(e, mantenimientos, j, cutoff, q);
        if m.equipoId == e.id {
          var v := EventVerdict(m.fecha, cutoff, q);
          if v.Fail? {
            EventsOfFails(e, mantenimientos, j + 1, cutoff, q);
            return true, h, t, ps;
          }
          if v.Keep? {
            var p := (e.nombre, v.date);
            GroupAppend(ps, p);
            TagAppend(ps0, e.nombre, ds, v.date);
            h := h[e.nombre := (if e.nombre in h then h[e.nombre] else []) + [v.date]];
            t := t + 1;
            ds := ds + [v.date];
            ps := ps + [p];
          }
        }
        j := j + 1;
      }
      assert mantenimientos[..|mantenimientos|] == mantenimientos;
      return false, h, t, ps;
    }

    method ObtenerHistorial(today: Date, q: Query) returns (r: Option<(map<string, seq<string>>, int)>)
      requires ValidDate(today)
      ensures r == Historial(equipos, mantenimientos, today, q)
    {
      var cut := Cutoff(today);
      if cut.None? {
        return None;
      }
      var cutoff := Format(cut.value);
      var historial: map<string, seq<Date>> := map[];
      var total := 0;
      ghost var ps: seq<(string, Date)> := [];
      var i := 0;
      while i < |equipos|
        invariant 0 <= i <= |equipos|
        invariant Collect(equipos[..i], mantenimientos, cutoff, q) == Some(ps)
        invariant historial == Group(ps) && total == |ps|
      {
        var e := equipos[i];
        assert equipos[..i + 1][..i] == equipos[..i];
        assert equipos[..i + 1][i] == e;
        if Selected(e, q) {
          var failed;
          ghost var ps0 := ps;
          failed, historial, total, ps := CollectEvents(e, cutoff, q, historial, total, ps);
          if failed {
            CollectFails(equipos, i + 1, mantenimientos, cutoff, q);
            assert equipos[..|equipos|] == equipos;
            return None;
          }
          assert Collect(equipos[..i + 1], mantenimientos, cutoff, q) == Some(ps);
        }
        i := i + 1;
      }
      assert equipos[..|equipos|] == equipos;
      GroupValid(ps);
      r := Some((Arrange(historial), total));
    }
  }

  /** One more event: what the inner loop does with it. */
  lemma EventsOfStep(e: Equipo, ms: seq<Mant>, j: int, cutoff: string, q: Query)
    requires 0 <= j < |ms|
    ensures var prev := EventsOf(e, ms[..j], cutoff, q);
      EventsOf(e, ms[..j + 1], cutoff, q) ==
        if prev.None? then None
        else if ms[j].equipoId != e.id then prev
        else match EventVerdict(ms[j].fecha, cutoff, q)
          case Skip => prev
          case Fail => None
          case Keep(dt) => Some(prev.value + [dt])
  {
    assert ms[..j + 1][..j] == ms[..j];
    assert ms[..j + 1][j] == ms[j];
  }

  /** One more pair: `setdefault(nombre, []).append(fecha)`. */
  lemma GroupAppend(ps: seq<(string, Date)>, p: (string, Date))
    ensures var g := Group(ps);
      Group(ps + [p]) == g[p.0 := (if p.0 in g then g[p.0] else []) + [p.1]]
  {
    assert (ps + [p])[..|ps|] == ps;
  }

  /** One more kept date adds one pair at the end. */
  lemma TagAppend(ps0: seq<(string, Date)>, n: string, ds: seq<Date>, dt: Date)
    ensures ps0 + Tag(n, ds + [dt]) == (ps0 + Tag(n, ds)) + [(n, dt)]
  {
    assert Tag(n, ds + [dt]) == Tag(n, ds) + [(n, dt)];
  }

  /** Once the inner loop raises on a prefix of the events, the whole call raises. */
  lemma {:induction false} EventsOfFails(e: Equipo, ms: seq<Mant>, k: int, cutoff: string, q: Query)
    requires 0 <= k <= |ms| && EventsOf(e, ms[..k], cutoff, q).None?
    ensures EventsOf(e, ms, cutoff, q).None?
    decreases |ms| - k
  {
    if k < |ms| {
      assert ms[..k + 1][..k] == ms[..k];
      EventsOfFails(e, ms, k + 1, cutoff, q);
    } else {
      assert ms[..k] == ms;
    }
  }

  /** Once the outer loop raises on a prefix of the equipment, the whole call raises. */
  lemma {:induction false} CollectFails(eqs: seq<Equipo>, k: int, ms: seq<Mant>, cutoff: string, q: Query)
    requires 0 <= k <= |eqs| && Collect(eqs[..k], ms, cutoff, q).None?
    ensures Collect(eqs, ms, cutoff, q).None?
    decreases |eqs| - k
  {
    if k < |eqs| {
      assert eqs[..k + 1][..k] == eqs[..k];
      CollectFails(eqs, k + 1, ms, cutoff, q);
    } else {
      assert eqs[..k] == eqs;
    }
  }
}
