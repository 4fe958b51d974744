/**
  `obtener_historial_filtrado`: the maintenance events of the last 730 days,
  optionally limited to a date range and to some equipment types, grouped
  by equipment name, newest first and shown as DD/MM/YYYY, with their count.
  The current day is a parameter.
 */
module History {
  import opened Wrappers
  import opened Text
  import opened Dates
  import opened Records
  import opened Ranking

  /**
    The filters: `desde` and `hasta` are `YYYY-MM-DD` text, "" when absent;
    `servicios` lists the equipment types to keep, [] when absent.
   */
  datatype Query = Query(desde: string, hasta: string, servicios: seq<string>)

  /** What the loop body does with one event: skip it, keep it with its date, or raise. */
  datatype Verdict = Skip | Keep(date: Date) | Fail

  /** The loop body for one event of the equipment, given the cutoff text. */
  function EventVerdict(fecha: string, cutoff: string, q: Query): (v: Verdict)
    ensures v.Keep? ==> ValidDate(v.date)
  {
    if fecha == [] || LexLess(fecha, cutoff) then Skip
    else
      match Parse(fecha)
      case None => Skip
      case Some(dt) =>
        if q.desde != [] && Parse(q.desde).None? then Fail
        else if q.desde != [] && Before(dt, Parse(q.desde).value) then Skip
        else if q.hasta != [] && Parse(q.hasta).None? then Fail
        else if q.hasta != [] && Before(Parse(q.hasta).value, dt) then Skip
        else Keep(dt)
  }

  /** An equipment passes the type filter. */
  predicate Selected(e: Equipo, q: Query) {
    q.servicios == [] || e.tipo in q.servicios
  }

  predicate Kept(e: Equipo, m: Mant, cutoff: string, q: Query, dt: Date) {
    m.equipoId == e.id && EventVerdict(m.fecha, cutoff, q) == Keep(dt)
  }

  predicate Fails(e: Equipo, m: Mant, cutoff: string, q: Query) {
    m.equipoId == e.id && EventVerdict(m.fecha, cutoff, q) == Fail
  }

  /** The inner loop: the kept dates of one equipment's events, in list order; None once one raises. */
  function EventsOf(e: Equipo, ms: seq<Mant>, cutoff: string, q: Query): (r: Option<seq<Date>>)
    ensures r.Some? ==> forall i :: 0 <= i < |r.value| ==> ValidDate(r.value[i])
  {
    if ms == [] then Some([])
    else
      match EventsOf(e, ms[..|ms| - 1], cutoff, q)
      case None => None
      case Some(ds) =>
        var m := ms[|ms| - 1];
        if m.equipoId != e.id then Some(ds)
        else
          match EventVerdict(m.fecha, cutoff, q)
          case Skip => Some(ds)
          case Fail => None
          case Keep(dt) => Some(ds + [dt])
  }

  /** Each item paired with a name: the (name, date) pairs of one equipment, or the CSV rows of one name. */
  function Tag<T>(n: string, ds: seq<T>): (r: seq<(string, T)>)
    ensures |r| == |ds| && forall i :: 0 <= i < |ds| ==> r[i] == (n, ds[i])
  {
    seq(|ds|, i requires 0 <= i < |ds| => (n, ds[i]))
  }

  /** Both loops: (name, date) for every kept event, equipment by equipment; None once one raises. */
  function Collect(eqs: seq<Equipo>, ms: seq<Mant>, cutoff: string, q: Query): (r: Option<seq<(string, Date)>>)
    ensures r.Some? ==> forall i :: 0 <= i < |r.value| ==> ValidDate(r.value[i].1)
  {
    if eqs == [] then Some([])
    else
      match Collect(eqs[..|eqs| - 1], ms, cutoff, q)
      case None => None
      case Some(ps) =>
        var e := eqs[|eqs| - 1];
        if !Selected(e, q) then Some(ps)
        else
          match EventsOf(e, ms, cutoff, q)
          case None => None
          case Some(ds) => Some(ps + Tag(e.nombre, ds))
  }

  /** The dates paired with name `n`, in order. */
  function DatesFor(ps: seq<(string, Date)>, n: string): (r: seq<Date>)
    ensures |r| <= |ps|
    ensures r == [] <==> forall i :: 0 <= i < |ps| ==> ps[i].0 != n
    ensures forall i :: 0 <= i < |r| ==> (n, r[i]) in ps
  {
    if ps == [] then []
    else
      var rest := DatesFor(ps[..|ps| - 1], n);
      assert forall i :: 0 <= i < |ps| - 1 ==> ps[..|ps| - 1][i] == ps[i];
      rest + (if ps[|ps| - 1].0 == n then [ps[|ps| - 1].1] else [])
  }

  /**
    `historial.setdefault(nombre, []).append(fecha)` over the pairs: one
    entry per name met.
   */
  function Group(ps: seq<(string, Date)>): (r: map<string, seq<Date>>)
    ensures forall n :: n in r <==> exists i :: 0 <= i < |ps| && ps[i].0 == n
  {
    if ps == [] then map[]
    else
      var g := Group(ps[..|ps| - 1]);
      var (n, dt) := ps[|ps| - 1];
      assert forall i :: 0 <= i < |ps| - 1 ==> ps[..|ps| - 1][i] == ps[i];
      g[n := (if n in g then g[n] else []) + [dt]]
  }

  /** Each entry holds that name's dates in the order met. */
  lemma {:induction false} GroupSpec(ps: seq<(string, Date)>, n: string)
    requires n in Group(ps)
    ensures Group(ps)[n] == DatesFor(ps, n)
  {
    var init := ps[..|ps| - 1];
    var (m, dt) := ps[|ps| - 1];
    assert forall i :: 0 <= i < |ps| - 1 ==> init[i] == ps[i];
    if n in Group(init) {
      GroupSpec(init, n);
    } else {
      assert DatesFor(init, n) == [];
    }
  }

  lemma GroupValid(ps: seq<(string, Date)>)
    requires forall i :: 0 <= i < |ps| ==> ValidDate(ps[i].1)
    ensures forall n :: n in Group(ps) ==> forall i :: 0 <= i < |Group(ps)[n]| ==> ValidDate(Group(ps)[n][i])
  {
    forall n, i | n in Group(ps) && 0 <= i < |Group(ps)[n]| ensures ValidDate(Group(ps)[n][i]) {
      GroupSpec(ps, n);
      var dates := DatesFor(ps, n);
      assert (n, dates[i]) in ps;
    }
  }

  /** `sort(key=fecha, reverse=True)` on one group: newest first, the same dates, ties in order met. */
  function NewestFirst(ds: seq<Date>): (r: seq<Date>)
    requires forall i :: 0 <= i < |ds| ==> ValidDate(ds[i])
    ensures SortedDesc(r, Ordinal) && multiset(r) == multiset(ds)
    ensures forall i :: 0 <= i < |r| ==> ValidDate(r[i])
  {
    SortDescSpec(ds, Ordinal);
    var r := SortDesc(ds, Ordinal);
    assert forall i :: 0 <= i < |r| ==> r[i] in multiset(ds);
    r
  }

  function Displays(ds: seq<Date>): (r: seq<string>)
    requires forall i :: 0 <= i < |ds| ==> ValidDate(ds[i])
    ensures |r| == |ds| && forall i :: 0 <= i < |ds| ==> r[i] == Display(ds[i])
  {
    seq(|ds|, i requires 0 <= i < |ds| => Display(ds[i]))
  }

  /** The loop that sorts every group and keeps the shown text of its dates. */
  function Arrange(g: map<string, seq<Date>>): (h: map<string, seq<string>>)
    requires forall n :: n in g ==> forall i :: 0 <= i < |g[n]| ==> ValidDate(g[n][i])
    ensures h.Keys == g.Keys
  {
    map n | n in g :: Displays(NewestFirst(g[n]))
  }

  /** Every group is shown newest first: the display of a reordering of its dates that never goes forward in time. */
  lemma ArrangeSpec(g: map<string, seq<Date>>, n: string)
    requires forall n :: n in g ==> forall i :: 0 <= i < |g[n]| ==> ValidDate(g[n][i])
    requires n in g
    ensures exists ds :: && (forall i :: 0 <= i < |ds| ==> ValidDate(ds[i]))
                         && Arrange(g)[n] == Displays(ds)
                         && SortedDesc(ds, Ordinal) && multiset(ds) == multiset(g[n])
  {
    var ds := NewestFirst(g[n]);
    assert Arrange(g)[n] == Displays(ds);
  }

  /** The cutoff: the text of the day 730 days before today, None where Python raises OverflowError. */
  function Cutoff(today: Date): (r: Option<Date>)
    requires ValidDate(today)
    ensures r.Some? <==> Ordinal(today) > 730
    ensures r.Some? ==> ValidDate(r.value) && Ordinal(r.value) == Ordinal(today) - 730
  {
    AddDaysOrdinal(today, -730);
    AddDays(today, -730)
  }

  /** `obtener_historial_filtrado`: (name to dates newest first, number of events), None where it raises. */
  function Historial(eqs: seq<Equipo>, ms: seq<Mant>, today: Date, q: Query): Option<(map<string, seq<string>>, int)>
    requires ValidDate(today)
  {
    match Cutoff(today)
    case None => None
    case Some(c) =>
      match Collect(eqs, ms, Format(c), q)
      case None => None
      case Some(ps) =>
        GroupValid(ps);
        Some((Arrange(Group(ps)), |ps|))
  }

  /**
    Which events are kept: those whose stored text parses, dated no earlier
    than the cutoff day and inside each bound that is given. Comparing the
    stored text with the cutoff text is comparing the days.
   */
  lemma KeepSpec(fecha: string, c: Date, q: Query, dt: Date)
    requires ValidDate(c)
    ensures EventVerdict(fecha, Format(c), q) == Keep(dt) <==>
      && Parse(fecha) == Some(dt)
      && Ordinal(c) <= Ordinal(dt)
      && (q.desde == [] || (Parse(q.desde).Some? && Ordinal(Parse(q.desde).value) <= Ordinal(dt)))
      && (q.hasta == [] || (Parse(q.hasta).Some? && Ordinal(dt) <= Ordinal(Parse(q.hasta).value)))
  {
    if Parse(fecha) == Some(dt) {
      FormatParse(fecha);
      FormatOrder(dt, c);
      OrdinalOrder(dt, c);
      if q.desde != [] && Parse(q.desde).Some? {
        FormatParse(q.desde);
        OrdinalOrder(dt, Parse(q.desde).value);
      }
      if q.hasta != [] && Parse(q.hasta).Some? {
        FormatParse(q.hasta);
        OrdinalOrder(Parse(q.hasta).value, dt);
      }
    }
  }

  /** The loop body raises only on a bound that is given and does not parse. */
  lemma FailSpec(fecha: string, cutoff: string, q: Query)
    requires EventVerdict(fecha, cutoff, q) == Fail
    ensures (q.desde != [] && Parse(q.desde).None?) || (q.hasta != [] && Parse(q.hasta).None?)
  {
  }

  /** The inner loop keeps exactly the kept events of the equipment, and raises exactly when one of them raises. */
  lemma {:induction false} EventsOfSpec(e: Equipo, ms: seq<Mant>, cutoff: string, q: Query)
    ensures var r := EventsOf(e, ms, cutoff, q);
      && (r.None? <==> exists j :: 0 <= j < |ms| && Fails(e, ms[j], cutoff, q))
      && (r.Some? ==> forall dt :: dt in r.value <==> exists j :: 0 <= j < |ms| && Kept(e, ms[j], cutoff, q, dt))
  {
    if ms != [] {
      var init, m := ms[..|ms| - 1], ms[|ms| - 1];
      EventsOfSpec(e, init, cutoff, q);
      assert forall j :: 0 <= j < |ms| - 1 ==> init[j] == ms[j];
      var r := EventsOf(e, ms, cutoff, q);
      if r.Some? {
        var ds := EventsOf(e, init, cutoff, q).value;
        forall dt ensures dt in r.value <==> exists j :: 0 <= j < |ms| && Kept(e, ms[j], cutoff, q, dt) {
          if Kept(e, m, cutoff, q, dt) {
            assert r.value == ds + [dt];
          }
        }
      }
    }
  }

  /**
    Both loops together: the pairs are exactly (name, date) of the kept
    events of the selected equipment, and the call raises exactly when an
    event of a selected equipment makes it raise.
   */
  lemma {:induction false} CollectSpec(eqs: seq<Equipo>, ms: seq<Mant>, cutoff: string, q: Query)
    ensures var r := Collect(eqs, ms, cutoff, q);
      && (r.None? <==> exists i, j :: 0 <= i < |eqs| && 0 <= j < |ms| && Selected(eqs[i], q) && Fails(eqs[i], ms[j], cutoff, q))
      && (r.Some? ==> forall p :: p in r.value <==>
            exists i, j :: 0 <= i < |eqs| && 0 <= j < |ms| && Selected(eqs[i], q)
              && p.0 == eqs[i].nombre && Kept(eqs[i], ms[j], cutoff, q, p.1))
  {
    if eqs != [] {
      var init, e := eqs[..|eqs| - 1], eqs[|eqs| - 1];
      CollectSpec(init, ms, cutoff, q);
      EventsOfSpec(e, ms, cutoff, q);
      assert forall i :: 0 <= i < |eqs| - 1 ==> init[i] == eqs[i];
      var r := Collect(eqs, ms, cutoff, q);
      if r.Some? {
        var ps := Collect(init, ms, cutoff, q).value;
        forall p ensures p in r.value <==>
            exists i, j :: 0 <= i < |eqs| && 0 <= j < |ms| && Selected(eqs[i], q)
              && p.0 == eqs[i].nombre && Kept(eqs[i], ms[j], cutoff, q, p.1)
        {
          if Selected(e, q) {
            var ds := EventsOf(e, ms, cutoff, q).value;
            assert r.value == ps + Tag(e.nombre, ds);
            if p.0 == e.nombre && p.1 in ds {
              var k :| 0 <= k < |ds| && ds[k] == p.1;
              assert Tag(e.nombre, ds)[k] == p;
            }
            if p in Tag(e.nombre, ds) {
              var k :| 0 <= k < |ds| && Tag(e.nombre, ds)[k] == p;
              assert p.1 in ds;
            }
          }
        }
      }
    }
  }

  /** No history exists before 0003-01-01: the cutoff would fall before year 1 and Python raises. */
  lemma HistorialOverflow(eqs: seq<Equipo>, ms: seq<Mant>, today: Date, q: Query)
    requires ValidDate(today) && Ordinal(today) <= 730
    ensures Historial(eqs, ms, today, q).None?
  {
    AddDaysOrdinal(today, -730);
  }

  /** With well-formed bounds (or none) and a representable cutoff the call always answers. */
  lemma HistorialDefined(eqs: seq<Equipo>, ms: seq<Mant>, today: Date, q: Query)
    requires ValidDate(today) && Ordinal(today) > 730
    requires q.desde == [] || Parse(q.desde).Some?
    requires q.hasta == [] || Parse(q.hasta).Some?
    ensures Historial(eqs, ms, today, q).Some?
  {
    var c := Cutoff(today).value;
    CollectSpec(eqs, ms, Format(c), q);
    forall i, j | 0 <= i < |eqs| && 0 <= j < |ms| ensures !Fails(eqs[i], ms[j], Format(c), q) {
      if Fails(eqs[i], ms[j], Format(c), q) {
        FailSpec(ms[j].fecha, Format(c), q);
      }
    }
  }

  /**
    The answer: one entry per name having a kept event, listing that name's
    kept dates newest first (ties in the order met); the count is the number
    of kept events over all names.
   */
  lemma HistorialSpec(eqs: seq<Equipo>, ms: seq<Mant>, today: Date, q: Query)
    requires ValidDate(today) && Historial(eqs, ms, today, q).Some?
    ensures Cutoff(today).Some? && Collect(eqs, ms, Format(Cutoff(today).value), q).Some?
    ensures var h := Historial(eqs, ms, today, q).value.0;
      var ps := Collect(eqs, ms, Format(Cutoff(today).value), q).value;
      && Historial(eqs, ms, today, q).value.1 == |ps|
      && (forall n :: n in h <==> exists i :: 0 <= i < |ps| && ps[i].0 == n)
      && (forall n :: n in h ==>
            exists ds :: && (forall i :: 0 <= i < |ds| ==> ValidDate(ds[i]))
                         && h[n] == Displays(ds)
                         && SortedDesc(ds, Ordinal) && multiset(ds) == multiset(DatesFor(ps, n)))
  {
    var c := Cutoff(today).value;
    var ps := Collect(eqs, ms, Format(c), q).value;
    var g := Group(ps);
    GroupValid(ps);
    forall n | n in g
      ensures exists ds :: && (forall i :: 0 <= i < |ds| ==> ValidDate(ds[i]))
                           && Arrange(g)[n] == Displays(ds)
                           && SortedDesc(ds, Ordinal) && multiset(ds) == multiset(DatesFor(ps, n))
    {
      GroupSpec(ps, n);
      ArrangeSpec(g, n);
    }
  }

  /**
    Every event listed lies within the last 730 days and inside the given
    bounds, and belongs to a selected equipment of that name.
   */
  lemma HistorialSound(eqs: seq<Equipo>, ms: seq<Mant>, today: Date, q: Query, n: string, dt: Date)
    requires ValidDate(today) && Historial(eqs, ms, today, q).Some?
    requires Cutoff(today).Some? && Collect(eqs, ms, Format(Cutoff(today).value), q).Some?
    requires (n, dt) in Collect(eqs, ms, Format(Cutoff(today).value), q).value
    ensures Ordinal(today) - 730 <= Ordinal(dt) <= MaxOrdinal
    ensures q.desde == [] || (Parse(q.desde).Some? && Ordinal(Parse(q.desde).value) <= Ordinal(dt))
    ensures q.hasta == [] || (Parse(q.hasta).Some? && Ordinal(dt) <= Ordinal(Parse(q.hasta).value))
    ensures exists i, j :: && 0 <= i < |eqs| && 0 <= j < |ms| && Selected(eqs[i], q) && eqs[i].nombre == n
                           && ms[j].equipoId == eqs[i].id && Parse(ms[j].fecha) == Some(dt)
  {
    var c := Cutoff(today).value;
    CollectSpec(eqs, ms, Format(c), q);
    var i, j :| 0 <= i < |eqs| && 0 <= j < |ms| && Selected(eqs[i], q)
      && n == eqs[i].nombre && Kept(eqs[i], ms[j], Format(c), q, dt);
    KeepSpec(ms[j].fecha, c, q, dt);
    OrdinalBounds(dt);
  }

  // The total is the number of dates listed, summed over the names in any order.

  predicate Distinct(ks: seq<string>) {
    forall i, j :: 0 <= i < j < |ks| ==> ks[i] != ks[j]
  }

  /** How many dates the listing shows under the names `ks`. */
  function SumLens(h: map<string, seq<string>>, ks: seq<string>): nat
    requires forall i :: 0 <= i < |ks| ==> ks[i] in h
  {
    if ks == [] then 0 else |h[ks[0]]| + SumLens(h, ks[1..])
  }

  function SumDates(ps: seq<(string, Date)>, ks: seq<string>): nat {
    if ks == [] then 0 else |DatesFor(ps, ks[0])| + SumDates(ps, ks[1..])
  }

  function Occurrences(ks: seq<string>, n: string): nat {
    if ks == [] then 0 else (if ks[0] == n then 1 else 0) + Occurrences(ks[1..], n)
  }

  lemma {:induction false} OccurrencesDistinct(ks: seq<string>, n: string)
    requires Distinct(ks) && n in ks
    ensures Occurrences(ks, n) == 1
  {
    if ks[0] == n {
      OccurrencesAbsent(ks[1..], n);
    } else {
      OccurrencesDistinct(ks[1..], n);
    }
  }

  lemma {:induction false} OccurrencesAbsent(ks: seq<string>, n: string)
    requires n !in ks
    ensures Occurrences(ks, n) == 0
  {
    if ks != [] {
      OccurrencesAbsent(ks[1..], n);
    }
  }

  /** One more pair adds one date under each occurrence of its name. */
  lemma {:induction false} SumDatesStep(ps: seq<(string, Date)>, ks: seq<string>)
    requires |ps| > 0
    ensures SumDates(ps, ks) == SumDates(ps[..|ps| - 1], ks) + Occurrences(ks, ps[|ps| - 1].0)
  {
    if ks != [] {
      SumDatesStep(ps, ks[1..]);
    }
  }

  /** Summed over the distinct names met, the dates per name count every pair once. */
  lemma {:induction false} SumDatesTotal(ps: seq<(string, Date)>, ks: seq<string>)
    requires Distinct(ks)
    requires forall i :: 0 <= i < |ps| ==> ps[i].0 in ks
    ensures SumDates(ps, ks) == |ps|
  {
    if ps == [] {
      SumDatesEmpty(ks);
    } else {
      var init := ps[..|ps| - 1];
      assert forall i :: 0 <= i < |init| ==> init[i] == ps[i];
      SumDatesTotal(init, ks);
      SumDatesStep(ps, ks);
      OccurrencesDistinct(ks, ps[|ps| - 1].0);
    }
  }

  lemma {:induction false} SumDatesEmpty(ks: seq<string>)
    ensures SumDates([], ks) == 0
  {
    if ks != [] {
      SumDatesEmpty(ks[1..]);
    }
  }

  lemma {:induction false} SumLensDates(h: map<string, seq<string>>, ps: seq<(string, Date)>, ks: seq<string>)
    requires forall i :: 0 <= i < |ks| ==> ks[i] in h && |h[ks[i]]| == |DatesFor(ps, ks[i])|
    ensures SumLens(h, ks) == SumDates(ps, ks)
  {
    if ks != [] {
      SumLensDates(h, ps, ks[1..]);
    }
  }

  lemma ArrangeTotal(ps: seq<(string, Date)>, ks: seq<string>)
    requires forall i :: 0 <= i < |ps| ==> ValidDate(ps[i].1)
    requires forall n :: n in Group(ps) ==> forall i :: 0 <= i < |Group(ps)[n]| ==> ValidDate(Group(ps)[n][i])
    requires Distinct(ks) && forall n :: n in ks <==> n in Group(ps)
    ensures SumLens(Arrange(Group(ps)), ks) == |ps|
  {
    var g := Group(ps);
    var h := Arrange(g);
    forall i | 0 <= i < |ks| ensures ks[i] in h && |h[ks[i]]| == |DatesFor(ps, ks[i])| {
      GroupSpec(ps, ks[i]);
      assert h[ks[i]] == Displays(NewestFirst(g[ks[i]]));
    }
    SumLensDates(h, ps, ks);
    forall i | 0 <= i < |ps| ensures ps[i].0 in ks {
      assert ps[i].0 in g;
    }
    SumDatesTotal(ps, ks);
  }

  /**
    The count returned is the number of dates listed: summing the lengths
    of the per-name lists, in any order of the names, gives it.
   */
  lemma HistorialTotal(eqs: seq<Equipo>, ms: seq<Mant>, today: Date, q: Query, ks: seq<string>)
    requires ValidDate(today) && Historial(eqs, ms, today, q).Some?
    requires Distinct(ks) && forall n :: n in ks <==> n in Historial(eqs, ms, today, q).value.0
    ensures SumLens(Historial(eqs, ms, today, q).value.0, ks) == Historial(eqs, ms, today, q).value.1
  {
    var c := Cutoff(today).value;
    var ps := Collect(eqs, ms, Format(c), q).value;
    GroupValid(ps);
    assert Historial(eqs, ms, today, q).value == (Arrange(Group(ps)), |ps|);
    ArrangeTotal(ps, ks);
  }
}
