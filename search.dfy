/**
  `buscar_equipos`: score every equipment name against the query in tiers
  (exact 1000, prefix 500, a word starting with the query 400, anywhere
  300), keep the positive ones, rank them best first and return the first
  25. Text normalisation (accent stripping and lower-casing through the
  Unicode tables) is the parameter `norm`.
 */
module Search {
  import opened Text
  import opened Records
  import opened Ranking

  /** `s.replace("-", "_")`. */
  function ReplaceDashes(s: string): (r: string)
    ensures |r| == |s|
    ensures forall i :: 0 <= i < |s| ==> r[i] == if s[i] == '-' then '_' else s[i]
  {
    seq(|s|, i requires 0 <= i < |s| => if s[i] == '-' then '_' else s[i])
  }

  /** After the replacement no dash is left, and a name without dashes is unchanged. */
  lemma ReplaceDashesSpec(s: string)
    ensures '-' !in ReplaceDashes(s)
    ensures '-' !in s ==> ReplaceDashes(s) == s
  {
    var r := ReplaceDashes(s);
    assert forall i :: 0 <= i < |r| ==> r[i] != '-';
  }

  /** `s.split(sep)` for a one-character separator: the pieces between separators, empty ones included. */
  function Split(s: string, sep: char): (r: seq<string>)
    ensures |r| >= 1
    ensures StartsWith(s, r[0])
    ensures forall p :: p in r ==> sep !in p && Contains(s, p)
    decreases |s|
  {
    if s == [] then
      assert OccursAt(s, [], 0);
      [[]]
    else
      var rest := Split(s[1..], sep);
      assert forall p :: p in rest ==> Contains(s, p) by {
        forall p | p in rest ensures Contains(s, p) {
          ContainsTail(s, p);
        }
      }
      if s[0] == sep then
        assert OccursAt(s, [], 0);
        [[]] + rest
      else
        var first := [s[0]] + rest[0];
        assert s == [s[0]] + s[1..];
        PrefixContained(s, first);
        [first] + rest[1..]
  }

  /** The score one piece of the name gives in the last branch. */
  function PartScore(part: string, q: string): int {
    if Contains(part, q) then (if StartsWith(part, q) then 200 else 100) else 0
  }

  /** The best piece score, starting from 0. */
  function PartsScore(parts: seq<string>, q: string): int {
    if parts == [] then 0
    else
      var best := PartsScore(parts[..|parts| - 1], q);
      var s := PartScore(parts[|parts| - 1], q);
      if s > best then s else best
  }

  /** The score of a normalised name `n` against a normalised query `q`, as `buscar_equipos` computes it. */
  function Score(n: string, q: string): int {
    if q == n then 1000
    else if StartsWith(n, q) then 500
    else if Contains(n, "_" + q + "_") || Contains(n, "_" + q) || StartsWith(n, q + "_") then 400
    else if Contains(n, q) then 300
    else PartsScore(Split(ReplaceDashes(n), '_'), q)
  }

  /** A dash-free, underscore-free occurrence in the dashes-replaced name is an occurrence in the name. */
  lemma UndashContains(n: string, q: string)
    requires '_' !in q && Contains(ReplaceDashes(n), q)
    ensures Contains(n, q)
  {
    var r := ReplaceDashes(n);
    var i :| 0 <= i <= |r| - |q| && OccursAt(r, q, i);
    forall j | 0 <= j < |q| ensures n[i + j] == q[j] {
      assert r[i..i + |q|][j] == r[i + j];
      assert q[j] != '_';
    }
    assert n[i..i + |q|] == q;
    assert OccursAt(n, q, i);
  }

  /**
    The piece-by-piece branch never scores: it is only reached when the
    query is not in the name, and then it is in no piece either.
   */
  lemma PartsScoreZero(n: string, q: string)
    requires !Contains(n, q)
    ensures PartsScore(Split(ReplaceDashes(n), '_'), q) == 0
  {
    var parts := Split(ReplaceDashes(n), '_');
    forall p | p in parts ensures !Contains(p, q) {
      if Contains(p, q) {
        assert '_' !in q by {
          if '_' in q {
            ContainsChars(p, q, '_');
          }
        }
        ContainsTrans(ReplaceDashes(n), p, q);
        UndashContains(n, q);
      }
    }
    PartsScoreNone(parts, q);
  }

  lemma {:induction false} PartsScoreNone(parts: seq<string>, q: string)
    requires forall p :: p in parts ==> !Contains(p, q)
    ensures PartsScore(parts, q) == 0
  {
    if parts != [] {
      PartsScoreNone(parts[..|parts| - 1], q);
    }
  }

  /**
    The tiers exactly: 1000 for the name itself, 500 for a longer name
    starting with the query, 400 when `_` followed by the query occurs
    anywhere else in the name, 300 for any other occurrence, and 0 when
    the query does not occur in the name at all.
   */
  lemma ScoreTiers(n: string, q: string)
    ensures Score(n, q) == 1000 <==> n == q
    ensures Score(n, q) == 500 <==> n != q && StartsWith(n, q)
    ensures Score(n, q) == 400 <==> !StartsWith(n, q) && Contains(n, "_" + q)
    ensures Score(n, q) == 300 <==> Contains(n, q) && !StartsWith(n, q) && !Contains(n, "_" + q)
    ensures Score(n, q) == 0 <==> !Contains(n, q)
    ensures Score(n, q) > 0 <==> Contains(n, q)
  {
    if Contains(n, "_" + q + "_") {
      PrefixContained("_" + q + "_", "_" + q);
      ContainsTrans(n, "_" + q + "_", "_" + q);
    }
    if StartsWith(n, q + "_") {
      assert StartsWith(n, q);
    }
    if Contains(n, "_" + q) {
      assert Contains("_" + q, q) by {
        assert OccursAt("_" + q, q, 1);
      }
      ContainsTrans(n, "_" + q, q);
    }
    if StartsWith(n, q) {
      PrefixContained(n, q);
    }
    if !Contains(n, q) {
      PartsScoreZero(n, q);
    }
  }

  /** One result of the search. */
  datatype Hit = Hit(nombre: string, seccion: string, tipo: string)

  /** An equipment together with its score. */
  datatype Scored = Scored(e: Equipo, puntuacion: int)

  function ScoreKey(x: Scored): int {
    x.puntuacion
  }

  /** Equipment whose normalised name scores, with the score, in list order. */
  function Candidates(eqs: seq<Equipo>, q: string, norm: string -> string): (r: seq<Scored>)
    ensures forall x :: x in r <==> x.e in eqs && x.puntuacion == Score(norm(x.e.nombre), q) && x.puntuacion > 0
  {
    if eqs == [] then []
    else
      var e := eqs[|eqs| - 1];
      var rest := Candidates(eqs[..|eqs| - 1], q, norm);
      assert eqs == eqs[..|eqs| - 1] + [e];
      var s := Score(norm(e.nombre), q);
      if s > 0 then rest + [Scored(e, s)] else rest
  }

  /** One equipment alone is a candidate exactly when its name scores. */
  lemma CandidatesSingle(e: Equipo, q: string, norm: string -> string)
    ensures Candidates([e], q, norm) ==
      if Score(norm(e.nombre), q) > 0 then [Scored(e, Score(norm(e.nombre), q))] else []
  {
    assert [e][..0] == [];
  }

  /**
    The scoring loop goes through the equipment in list order: the
    candidates of a concatenation are those of each part, one after the other.
   */
  lemma {:induction false} CandidatesConcat(a: seq<Equipo>, b: seq<Equipo>, q: string, norm: string -> string)
    ensures Candidates(a + b, q, norm) == Candidates(a, q, norm) + Candidates(b, q, norm)
    decreases |b|
  {
    if b == [] {
      assert a + b == a;
    } else {
      var b' := b[..|b| - 1];
      assert (a + b)[..|a + b| - 1] == a + b';
      assert (a + b)[|a + b| - 1] == b[|b| - 1];
      CandidatesConcat(a, b', q, norm);
    }
  }

  /** The candidates best first, ties in list order (Python's stable `sort(reverse=True)`). */
  function Ranked(eqs: seq<Equipo>, q: string, norm: string -> string): seq<Scored> {
    SortDesc(Candidates(eqs, q, norm), ScoreKey)
  }

  function HitOf(e: Equipo): Hit {
    Hit(e.nombre, e.seccion, e.tipo)
  }

  function Hits(rs: seq<Scored>): (r: seq<Hit>)
    ensures |r| == |rs| && forall i :: 0 <= i < |rs| ==> r[i] == HitOf(rs[i].e)
  {
    seq(|rs|, i requires 0 <= i < |rs| => HitOf(rs[i].e))
  }

  const MaxResults: nat := 25

  /** `buscar_equipos(query)`. */
  function Buscar(eqs: seq<Equipo>, query: string, norm: string -> string): seq<Hit> {
    if query == [] then []
    else
      var q := norm(Strip(query));
      if q == [] then [] else Hits(Take(Ranked(eqs, q, norm), MaxResults))
  }

  /** An empty query, or one that normalises to nothing, finds nothing. */
  lemma BuscarEmpty(eqs: seq<Equipo>, query: string, norm: string -> string)
    requires query == [] || norm(Strip(query)) == []
    ensures Buscar(eqs, query, norm) == []
  {
  }

  /**
    The ranked candidates are exactly the equipment whose normalised name
    contains the query, each with its score, best first, equal scores in
    list order.
   */
  lemma RankedSpec(eqs: seq<Equipo>, q: string, norm: string -> string)
    ensures var r := Ranked(eqs, q, norm);
      && SortedDesc(r, ScoreKey)
      && (forall x :: x in r <==> x.e in eqs && x.puntuacion == Score(norm(x.e.nombre), q) && x.puntuacion > 0)
      && (forall e :: e in eqs && Contains(norm(e.nombre), q) ==> Scored(e, Score(norm(e.nombre), q)) in r)
      && (forall v :: WithKey(r, ScoreKey, v) == WithKey(Candidates(eqs, q, norm), ScoreKey, v))
  {
    var c := Candidates(eqs, q, norm);
    SortDescSpec(c, ScoreKey);
    assert forall x :: x in Ranked(eqs, q, norm) <==> x in c by {
      forall x ensures x in Ranked(eqs, q, norm) <==> x in c {
        assert x in multiset(Ranked(eqs, q, norm)) <==> x in multiset(c);
      }
    }
    forall e | e in eqs && Contains(norm(e.nombre), q) ensures Score(norm(e.nombre), q) > 0 {
      ScoreTiers(norm(e.nombre), q);
    }
  }

  /**
    A search returns at most 25 results: the best-ranked candidates, in
    ranking order; when no more than 25 names match, every matching
    equipment is among them.
   */
  lemma BuscarSpec(eqs: seq<Equipo>, query: string, norm: string -> string)
    requires query != [] && norm(Strip(query)) != []
    ensures var q := norm(Strip(query));
      var r := Buscar(eqs, query, norm);
      var ranked := Ranked(eqs, q, norm);
      && |r| == (if |ranked| <= MaxResults then |ranked| else MaxResults)
      && (forall i :: 0 <= i < |r| ==> r[i] == HitOf(ranked[i].e))
      && (|ranked| <= MaxResults ==>
            forall e :: e in eqs && Contains(norm(e.nombre), q) ==> HitOf(e) in r)
  {
    var q := norm(Strip(query));
    var ranked := Ranked(eqs, q, norm);
    RankedSpec(eqs, q, norm);
    if |ranked| <= MaxResults {
      forall e | e in eqs && Contains(norm(e.nombre), q) ensures HitOf(e) in Buscar(eqs, query, norm) {
        var x := Scored(e, Score(norm(e.nombre), q));
        var i :| 0 <= i < |ranked| && ranked[i] == x;
        assert Buscar(eqs, query, norm)[i] == HitOf(e);
      }
    }
  }

  /** No search returns more than 25 results. */
  lemma BuscarBounded(eqs: seq<Equipo>, query: string, norm: string -> string)
    ensures |Buscar(eqs, query, norm)| <= MaxResults
  {
  }
}
