/**
  The three kinds of record the store keeps (equipment, maintenance events
  and equipment types) and the lookups every operation is built from: the
  first equipment with a name, the first equipment in a slot, the last event
  of an equipment, and the next free id.
 */
module Records {
  import opened Wrappers

  /** One piece of equipment; `posicion` is its slot among the equipment of its type. */
  datatype Equipo = Equipo(id: int, nombre: string, seccion: string, tipo: string, posicion: int, nota: string)

  /** One maintenance event: the date it was done (text) and the interval to the next one, in days. */
  datatype Mant = Mant(id: int, equipoId: int, fecha: string, frecuencia: int)

  /** One equipment type of the catalog. */
  datatype Tipo = Tipo(id: int, codigo: string, nombreMostrar: string, seccion: string)

  predicate HasName(eqs: seq<Equipo>, n: string) {
    exists i :: 0 <= i < |eqs| && eqs[i].nombre == n
  }

  /** The first equipment named `n`, as every `for eq in equipos: if eq["nombre"] == n` loop finds it. */
  function IndexOfName(eqs: seq<Equipo>, n: string): (r: Option<nat>)
    ensures r.None? <==> !HasName(eqs, n)
    ensures r.Some? ==> r.value < |eqs| && eqs[r.value].nombre == n
    ensures r.Some? ==> forall j :: 0 <= j < r.value ==> eqs[j].nombre != n
  {
    if eqs == [] then None
    else if eqs[0].nombre == n then Some(0)
    else
      match IndexOfName(eqs[1..], n)
      case None =>
        assert forall i :: 1 <= i < |eqs| ==> eqs[i] == eqs[1..][i - 1];
        None
      case Some(i) => Some(i + 1)
  }

  /** The first equipment of type `tipo` sitting in slot `pos`. */
  function IndexOfSlot(eqs: seq<Equipo>, tipo: string, pos: int): (r: Option<nat>)
    ensures r.None? <==> forall i :: 0 <= i < |eqs| ==> !(eqs[i].tipo == tipo && eqs[i].posicion == pos)
    ensures r.Some? ==> r.value < |eqs| && eqs[r.value].tipo == tipo && eqs[r.value].posicion == pos
    ensures r.Some? ==> forall j :: 0 <= j < r.value ==> !(eqs[j].tipo == tipo && eqs[j].posicion == pos)
  {
    if eqs == [] then None
    else if eqs[0].tipo == tipo && eqs[0].posicion == pos then Some(0)
    else
      match IndexOfSlot(eqs[1..], tipo, pos)
      case None =>
        assert forall i :: 1 <= i < |eqs| ==> eqs[i] == eqs[1..][i - 1];
        None
      case Some(i) => Some(i + 1)
  }

  /**
    The current event of equipment `id`: the last one with that `equipo_id`
    in list order (not the one with the latest date), or None when it has none.
   */
  function LastMant(ms: seq<Mant>, id: int): (r: Option<Mant>)
    ensures r.None? <==> forall j :: 0 <= j < |ms| ==> ms[j].equipoId != id
    ensures r.Some? ==> r.value.equipoId == id
    ensures r.Some? ==> exists j :: 0 <= j < |ms| && ms[j] == r.value && forall k :: j < k < |ms| ==> ms[k].equipoId != id
  {
    if ms == [] then None
    else if ms[|ms| - 1].equipoId == id then Some(ms[|ms| - 1])
    else
      var r := LastMant(ms[..|ms| - 1], id);
      assert forall j :: 0 <= j < |ms| - 1 ==> ms[j] == ms[..|ms| - 1][j];
      r
  }

  /** An event appended to the list becomes its equipment's current event; other equipment keep theirs. */
  lemma LastMantAppend(ms: seq<Mant>, m: Mant, id: int)
    ensures LastMant(ms + [m], id) == if m.equipoId == id then Some(m) else LastMant(ms, id)
  {
    assert (ms + [m])[..|ms|] == ms;
  }

  /** Python's `max(ids, default=0)`. */
  function MaxOrZero(ids: seq<int>): (r: int)
    ensures ids == [] ==> r == 0
    ensures forall i :: 0 <= i < |ids| ==> ids[i] <= r
    ensures ids != [] ==> exists i :: 0 <= i < |ids| && ids[i] == r
  {
    if |ids| == 0 then 0
    else if |ids| == 1 then ids[0]
    else
      var m := MaxOrZero(ids[..|ids| - 1]);
      assert forall i :: 0 <= i < |ids| - 1 ==> ids[i] == ids[..|ids| - 1][i];
      if ids[|ids| - 1] > m then ids[|ids| - 1] else m
  }

  /** `max(ids, default=0) + 1`: larger than every id in use, 1 for an empty list. */
  function NextId(ids: seq<int>): (r: int)
    ensures ids == [] ==> r == 1
    ensures forall i :: 0 <= i < |ids| ==> ids[i] < r
    ensures ids != [] ==> exists i :: 0 <= i < |ids| && ids[i] == r - 1
  {
    MaxOrZero(ids) + 1
  }

  /**
    The ids of a list, the argument of `max(...)` in the two id
    allocations: one function per record type, since `Equipo` and `Mant`
    are distinct datatypes that only happen to share an `id` field.
   */
  function EquipoIds(eqs: seq<Equipo>): (r: seq<int>)
    ensures |r| == |eqs| && forall i :: 0 <= i < |eqs| ==> r[i] == eqs[i].id
  {
    seq(|eqs|, i requires 0 <= i < |eqs| => eqs[i].id)
  }

  /** The ids of the event list; see `EquipoIds`. */
  function MantIds(ms: seq<Mant>): (r: seq<int>)
    ensures |r| == |ms| && forall i :: 0 <= i < |ms| ==> r[i] == ms[i].id
  {
    seq(|ms|, i requires 0 <= i < |ms| => ms[i].id)
  }

  /** The equipment list without the records whose id is `id` (a list comprehension). */
  function DropEquipo(eqs: seq<Equipo>, id: int): (r: seq<Equipo>)
    ensures |r| <= |eqs|
    ensures forall e :: e in r <==> e in eqs && e.id != id
  {
    if eqs == [] then []
    else
      var rest := DropEquipo(eqs[..|eqs| - 1], id);
      assert eqs == eqs[..|eqs| - 1] + [eqs[|eqs| - 1]];
      if eqs[|eqs| - 1].id != id then rest + [eqs[|eqs| - 1]] else rest
  }

  /** The event list without the events of equipment `id` (a list comprehension). */
  function DropMantsOf(ms: seq<Mant>, id: int): (r: seq<Mant>)
    ensures |r| <= |ms|
    ensures forall m :: m in r <==> m in ms && m.equipoId != id
  {
    if ms == [] then []
    else
      var rest := DropMantsOf(ms[..|ms| - 1], id);
      assert ms == ms[..|ms| - 1] + [ms[|ms| - 1]];
      if ms[|ms| - 1].equipoId != id then rest + [ms[|ms| - 1]] else rest
  }

  /** Filtering distributes over concatenation: the survivors keep their relative order. */
  lemma {:induction false} DropEquipoConcat(a: seq<Equipo>, b: seq<Equipo>, id: int)
    ensures DropEquipo(a + b, id) == DropEquipo(a, id) + DropEquipo(b, id)
    decreases |b|
  {
    if b != [] {
      var b' := b[..|b| - 1];
      assert (a + b)[..|a + b| - 1] == a + b';
      DropEquipoConcat(a, b', id);
    } else {
      assert a + b == a;
    }
  }

  /** Filtering distributes over concatenation: the survivors keep their relative order. */
  lemma {:induction false} DropMantsOfConcat(a: seq<Mant>, b: seq<Mant>, id: int)
    ensures DropMantsOf(a + b, id) == DropMantsOf(a, id) + DropMantsOf(b, id)
    decreases |b|
  {
    if b != [] {
      var b' := b[..|b| - 1];
      assert (a + b)[..|a + b| - 1] == a + b';
      DropMantsOfConcat(a, b', id);
    } else {
      assert a + b == a;
    }
  }

  /** Number of equipment of type `tipo`. */
  function CountTipo(eqs: seq<Equipo>, tipo: string): (r: nat)
    ensures r <= |eqs|
    ensures r == 0 <==> forall i :: 0 <= i < |eqs| ==> eqs[i].tipo != tipo
  {
    if eqs == [] then 0
    else
      var rest := CountTipo(eqs[..|eqs| - 1], tipo);
      assert forall i :: 0 <= i < |eqs| - 1 ==> eqs[i] == eqs[..|eqs| - 1][i];
      rest + (if eqs[|eqs| - 1].tipo == tipo then 1 else 0)
  }

  /** One record counts 1 exactly when it has the type. */
  lemma CountTipoSingle(e: Equipo, tipo: string)
    ensures CountTipo([e], tipo) == if e.tipo == tipo then 1 else 0
  {
    assert [e][..0] == [];
  }

  /**
    The count adds up over concatenation; with `CountTipoSingle` this pins
    the count as the number of records of the type.
   */
  lemma {:induction false} CountTipoConcat(a: seq<Equipo>, b: seq<Equipo>, tipo: string)
    ensures CountTipo(a + b, tipo) == CountTipo(a, tipo) + CountTipo(b, tipo)
    decreases |b|
  {
    if b == [] {
      assert a + b == a;
    } else {
      var b' := b[..|b| - 1];
      assert (a + b)[..|a + b| - 1] == a + b';
      assert (a + b)[|a + b| - 1] == b[|b| - 1];
      CountTipoConcat(a, b', tipo);
    }
  }

  /** The slot a record occupies among the equipment of type `tipo`, if it is of that type. */
  function SlotOf(e: Equipo, tipo: string): multiset<int> {
    if e.tipo == tipo then multiset{e.posicion} else multiset{}
  }

  /** The slots occupied by equipment of type `tipo`, with multiplicity. */
  function Slots(eqs: seq<Equipo>, tipo: string): multiset<int> {
    if eqs == [] then multiset{}
    else Slots(eqs[..|eqs| - 1], tipo) + SlotOf(eqs[|eqs| - 1], tipo)
  }

  /** Replacing one record changes the slots of a type by that record alone. */
  lemma {:induction false} SlotsUpdate(eqs: seq<Equipo>, k: int, x: Equipo, t: string)
    requires 0 <= k < |eqs|
    ensures Slots(eqs[k := x], t) + SlotOf(eqs[k], t) == Slots(eqs, t) + SlotOf(x, t)
    decreases |eqs|
  {
    if k == |eqs| - 1 {
      SlotsUpdateLast(eqs, x, t);
    } else {
      SlotsUpdate(eqs[..|eqs| - 1], k, x, t);
      SlotsUpdateStep(eqs, k, x, t);
    }
  }

  lemma SlotsUpdateLast(eqs: seq<Equipo>, x: Equipo, t: string)
    requires |eqs| > 0
    ensures var k := |eqs| - 1; Slots(eqs[k := x], t) + SlotOf(eqs[k], t) == Slots(eqs, t) + SlotOf(x, t)
  {
    var n := |eqs|;
    var y := eqs[n - 1 := x];
    assert y[..n - 1] == eqs[..n - 1];
    var a := Slots(eqs[..n - 1], t);
    assert Slots(y, t) == a + SlotOf(x, t);
    assert Slots(eqs, t) == a + SlotOf(eqs[n - 1], t);
  }

  lemma SlotsUpdateStep(eqs: seq<Equipo>, k: int, x: Equipo, t: string)
    requires 0 <= k < |eqs| - 1
    requires Slots(eqs[..|eqs| - 1][k := x], t) + SlotOf(eqs[k], t) == Slots(eqs[..|eqs| - 1], t) + SlotOf(x, t)
    ensures Slots(eqs[k := x], t) + SlotOf(eqs[k], t) == Slots(eqs, t) + SlotOf(x, t)
  {
    var n := |eqs|;
    var y := eqs[k := x];
    assert y[..n - 1] == eqs[..n - 1][k := x];
    var last := SlotOf(eqs[n - 1], t);
    assert Slots(y, t) == Slots(y[..n - 1], t) + last;
    MultisetShift(Slots(y[..n - 1], t), SlotOf(eqs[k], t), Slots(eqs[..n - 1], t), SlotOf(x, t), last);
  }

  lemma MultisetShift(a: multiset<int>, b: multiset<int>, c: multiset<int>, d: multiset<int>, l: multiset<int>)
    requires a + b == c + d
    ensures (a + l) + b == (c + l) + d
  {
    calc {
      (a + l) + b;
      (a + b) + l;
      (c + d) + l;
      (c + l) + d;
    }
  }

  lemma MultisetCancel(a: multiset<int>, c: multiset<int>, x: multiset<int>)
    requires a + x == c + x
    ensures a == c
  {
    assert forall v :: a[v] == (a + x)[v] - x[v];
  }
}
