/**
  `construir_csv_historial`: the filtered history as CSV text, a header row
  and then one row per (name, date), names in sorted order and each name's
  dates in the order listed. Rows are written as Python's `csv.writer` with
  its default dialect writes them: fields separated by commas, a field
  holding a comma, a double quote or a line break enclosed in double quotes
  with its quotes doubled, every row ended by CR LF; the text is then
  stripped.
 */
module CsvExport {
  import opened Text
  import opened History

  predicate StrictlySorted(s: seq<string>) {
    forall i, j :: 0 <= i < j < |s| ==> LexLess(s[i], s[j])
  }

  /** Put `k` in place in a strictly sorted list. */
  function InsertKey(s: seq<string>, k: string): (r: seq<string>)
    ensures |r| == |s| + 1
    ensures forall x :: x in r <==> x in s || x == k
  {
    if s == [] then [k]
    else if LexLess(s[0], k) then [s[0]] + InsertKey(s[1..], k)
    else [k] + s
  }

  /** `sorted(keys)`: code-point order on the names. */
  function SortKeys(ks: seq<string>): (r: seq<string>)
    ensures |r| == |ks|
    ensures forall x :: x in r <==> x in ks
  {
    if ks == [] then []
    else
      var init := ks[..|ks| - 1];
      assert ks == init + [ks[|ks| - 1]];
      InsertKey(SortKeys(init), ks[|ks| - 1])
  }

  lemma {:induction false} InsertKeySorted(s: seq<string>, k: string)
    requires StrictlySorted(s) && k !in s
    ensures StrictlySorted(InsertKey(s, k))
  {
    if s != [] {
      LexTrichotomy(s[0], k);
      if LexLess(s[0], k) {
        var t := InsertKey(s[1..], k);
        InsertKeySorted(s[1..], k);
        var r := [s[0]] + t;
        forall j | 0 < j < |r| ensures LexLess(r[0], r[j]) {
          assert r[j] == t[j - 1];
          assert r[j] in s[1..] || r[j] == k;
          if r[j] != k {
            var m :| 0 <= m < |s[1..]| && s[1..][m] == r[j];
            assert s[m + 1] == r[j];
          }
        }
        forall i, j | 0 < i < j < |r| ensures LexLess(r[i], r[j]) {
          assert r[i] == t[i - 1] && r[j] == t[j - 1];
        }
      } else {
        var r := [k] + s;
        forall j | 0 < j < |r| ensures LexLess(k, r[j]) {
          if j > 1 {
            LexTransitive(k, s[0], s[j - 1]);
          }
        }
      }
    }
  }

  /** Sorting a list of distinct names gives them strictly increasing. */
  lemma {:induction false} SortKeysSorted(ks: seq<string>)
    requires Distinct(ks)
    ensures StrictlySorted(SortKeys(ks))
  {
    if ks != [] {
      var init := ks[..|ks| - 1];
      assert Distinct(init);
      SortKeysSorted(init);
      assert ks[|ks| - 1] !in init;
      InsertKeySorted(SortKeys(init), ks[|ks| - 1]);
    }
  }

  /** Two strictly sorted lists holding the same names are the same list. */
  lemma {:induction false} SortedUnique(a: seq<string>, b: seq<string>)
    requires StrictlySorted(a) && StrictlySorted(b)
    requires forall x :: x in a <==> x in b
    ensures a == b
  {
    assert a != [] ==> a[0] in b;
    assert b != [] ==> b[0] in a;
    if a != [] && b != [] {
      assert a[0] == b[0] by {
        assert b[0] in a && a[0] in b;
        var i :| 0 <= i < |a| && a[i] == b[0];
        var j :| 0 <= j < |b| && b[j] == a[0];
        if i > 0 && j > 0 {
          LexTrichotomy(a[0], b[0]);
        }
      }
      forall x ensures x in a[1..] <==> x in b[1..] {
        if x in a[1..] {
          var i :| 0 <= i < |a[1..]| && a[1..][i] == x;
          assert LexLess(a[0], a[i + 1]);
          LexTrichotomy(a[0], x);
          assert x in b && x != b[0];
          var j :| 0 <= j < |b| && b[j] == x;
          assert b[1..][j - 1] == x;
        }
        if x in b[1..] {
          var j :| 0 <= j < |b[1..]| && b[1..][j] == x;
          assert LexLess(b[0], b[j + 1]);
          LexTrichotomy(b[0], x);
          assert x in a && x != a[0];
          var i :| 0 <= i < |a| && a[i] == x;
          assert a[1..][i - 1] == x;
        }
      }
      SortedUnique(a[1..], b[1..]);
      assert a == [a[0]] + a[1..] && b == [b[0]] + b[1..];
    }
  }

  /**
    The order of the names does not depend on the order the dictionary
    happens to hold them in: any two enumerations of the same distinct
    names sort to the same list.
   */
  lemma SortKeysCanonical(ks1: seq<string>, ks2: seq<string>)
    requires Distinct(ks1) && Distinct(ks2)
    requires forall x :: x in ks1 <==> x in ks2
    ensures SortKeys(ks1) == SortKeys(ks2)
    ensures StrictlySorted(SortKeys(ks1))
  {
    SortKeysSorted(ks1);
    SortKeysSorted(ks2);
    SortedUnique(SortKeys(ks1), SortKeys(ks2));
  }

  /** The rows of the names in `names`, name by name. */
  function AllRows(h: map<string, seq<string>>, names: seq<string>): seq<(string, string)>
    requires forall i :: 0 <= i < |names| ==> names[i] in h
  {
    if names == [] then [] else Tag(names[0], h[names[0]]) + AllRows(h, names[1..])
  }

  /** The records written: the header, then the rows of the names in sorted order. */
  function CsvRows(h: map<string, seq<string>>, keys: seq<string>): seq<(string, string)>
    requires forall k :: k in keys <==> k in h
  {
    var names := SortKeys(keys);
    assert forall i :: 0 <= i < |names| ==> names[i] in keys;
    [("equipo", "fecha")] + AllRows(h, names)
  }

  /** A field is quoted exactly when it holds the separator, the quote or a line break. */
  predicate NeedsQuotes(f: string) {
    exists i :: 0 <= i < |f| && (f[i] == ',' || f[i] == '"' || f[i] == '\r' || f[i] == '\n')
  }

  /** Every double quote doubled. */
  function Escape(f: string): (r: string)
    ensures |r| >= |f|
  {
    if f == [] then [] else (if f[0] == '"' then "\"\"" else [f[0]]) + Escape(f[1..])
  }

  function Field(f: string): string {
    if NeedsQuotes(f) then "\"" + Escape(f) + "\"" else f
  }

  function Row(r: (string, string)): string {
    Field(r.0) + "," + Field(r.1) + "\r\n"
  }

  function Join(rows: seq<(string, string)>): string {
    if rows == [] then [] else Row(rows[0]) + Join(rows[1..])
  }

  /** `construir_csv_historial(historial)`, where `keys` enumerates the dictionary's names. */
  function ConstruirCsv(h: map<string, seq<string>>, keys: seq<string>): string
    requires forall k :: k in keys <==> k in h
  {
    Strip(Join(CsvRows(h, keys)))
  }

  // Reading a field back, as a CSV reader does.

  /** Every doubled quote read as one. */
  function Undouble(s: string): string {
    if |s| >= 2 && s[0] == '"' && s[1] == '"' then "\"" + Undouble(s[2..])
    else if s == [] then []
    else [s[0]] + Undouble(s[1..])
  }

  function Unquote(s: string): string {
    if |s| >= 2 && s[0] == '"' && s[|s| - 1] == '"' then Undouble(s[1..|s| - 1]) else s
  }

  lemma {:induction false} UndoubleEscape(f: string)
    ensures Undouble(Escape(f)) == f
  {
    if f != [] {
      UndoubleEscape(f[1..]);
      var rest := Escape(f[1..]);
      if f[0] == '"' {
        assert Escape(f) == "\"\"" + rest;
        assert (Escape(f))[2..] == rest;
      } else {
        assert Escape(f) == [f[0]] + rest;
        assert (Escape(f))[1..] == rest;
      }
      assert f == [f[0]] + f[1..];
    }
  }

  /** Every field written reads back as itself: quoting loses nothing. */
  lemma FieldRoundTrip(f: string)
    ensures Unquote(Field(f)) == f
  {
    if NeedsQuotes(f) {
      var s := "\"" + Escape(f) + "\"";
      assert s[1..|s| - 1] == Escape(f);
      UndoubleEscape(f);
    } else if |f| >= 2 && f[0] == '"' {
      assert NeedsQuotes(f);
    }
  }

  /** The dates of the rows whose name is `n`, in row order, repeats kept. */
  function DatesIn(rows: seq<(string, string)>, n: string): seq<string> {
    if rows == [] then []
    else (if rows[0].0 == n then [rows[0].1] else []) + DatesIn(rows[1..], n)
  }

  lemma {:induction false} DatesInConcat(a: seq<(string, string)>, b: seq<(string, string)>, n: string)
    ensures DatesIn(a + b, n) == DatesIn(a, n) + DatesIn(b, n)
  {
    if a != [] {
      assert (a + b)[1..] == a[1..] + b;
      DatesInConcat(a[1..], b, n);
    } else {
      assert a + b == b;
    }
  }

  lemma {:induction false} DatesInTag(m: string, ds: seq<string>, n: string)
    ensures DatesIn(Tag(m, ds), n) == if m == n then ds else []
  {
    if ds != [] {
      assert Tag(m, ds)[1..] == Tag(m, ds[1..]);
      DatesInTag(m, ds[1..], n);
      assert ds == [ds[0]] + ds[1..];
    }
  }

  /**
    `for nombre in names: for fecha in historial[nombre]: writerow(...)`:
    as many rows as dates, exactly the history's (name, date) pairs, and,
    when no name is listed twice, each name's rows carry exactly its dates
    in the order listed, repeated dates included.
   */
  lemma {:induction false} AllRowsSpec(h: map<string, seq<string>>, names: seq<string>)
    requires forall i :: 0 <= i < |names| ==> names[i] in h
    ensures |AllRows(h, names)| == SumLens(h, names)
    ensures forall n, f :: (n, f) in AllRows(h, names) <==> n in names && f in h[n]
    ensures Distinct(names) ==>
      forall n :: DatesIn(AllRows(h, names), n) == if n in names then h[n] else []
  {
    if names != [] {
      AllRowsSpec(h, names[1..]);
      var first := Tag(names[0], h[names[0]]);
      if Distinct(names) {
        assert Distinct(names[1..]);
        assert names[0] !in names[1..];
        forall n ensures DatesIn(AllRows(h, names), n) == if n in names then h[n] else [] {
          DatesInConcat(first, AllRows(h, names[1..]), n);
          DatesInTag(names[0], h[names[0]], n);
          assert n in names <==> n == names[0] || n in names[1..];
        }
      }
      forall n, f ensures (n, f) in AllRows(h, names) <==> n in names && f in h[n] {
        if (n, f) in first {
          var i :| 0 <= i < |first| && first[i] == (n, f);
        }
        if n == names[0] && f in h[n] {
          var i :| 0 <= i < |h[n]| && h[n][i] == f;
          assert first[i] == (n, f);
        }
        assert n in names <==> n == names[0] || n in names[1..];
      }
    }
  }

  lemma {:induction false} AllRowsOrdered(h: map<string, seq<string>>, names: seq<string>)
    requires forall i :: 0 <= i < |names| ==> names[i] in h
    requires StrictlySorted(names)
    ensures var rows := AllRows(h, names);
      forall i, j :: 0 <= i < j < |rows| ==> LexLe(rows[i].0, rows[j].0)
  {
    if names != [] {
      var rest := AllRows(h, names[1..]);
      var first := Tag(names[0], h[names[0]]);
      AllRowsOrdered(h, names[1..]);
      AllRowsSpec(h, names[1..]);
      var rows := first + rest;
      forall i, j | 0 <= i < j < |rows| ensures LexLe(rows[i].0, rows[j].0) {
        if i < |first| && j >= |first| {
          assert rows[j] in rest;
          var k :| 0 <= k < |names[1..]| && names[1..][k] == rows[j].0;
          assert LexLess(names[0], names[k + 1]);
        } else if j >= |first| {
          assert rows[i] == rest[i - |first|] && rows[j] == rest[j - |first|];
        }
      }
    }
  }

  /**
    The records written are the header followed by one (name, date) row
    per listed date and no other: as many rows as dates, every (name, date)
    pair of the history present, each name's rows holding exactly its dates
    in the order listed, and names in non-decreasing order.
   */
  lemma CsvRowsSpec(h: map<string, seq<string>>, keys: seq<string>)
    requires Distinct(keys) && forall k :: k in keys <==> k in h
    ensures var rows := CsvRows(h, keys);
      && rows[0] == ("equipo", "fecha")
      && |rows| == 1 + SumLens(h, SortKeys(keys))
      && (forall n, f :: (n, f) in rows[1..] <==> n in h && f in h[n])
      && (forall n :: DatesIn(rows[1..], n) == if n in h then h[n] else [])
      && (forall i, j :: 1 <= i < j < |rows| ==> LexLe(rows[i].0, rows[j].0))
  {
    var names := SortKeys(keys);
    assert forall i :: 0 <= i < |names| ==> names[i] in h;
    SortKeysSorted(keys);
    forall i, j | 0 <= i < j < |names| ensures names[i] != names[j] {
      LexTrichotomy(names[i], names[j]);
    }
    AllRowsSpec(h, names);
    AllRowsOrdered(h, names);
    var rows := CsvRows(h, keys);
    assert rows[1..] == AllRows(h, names);
    forall i, j | 1 <= i < j < |rows| ensures LexLe(rows[i].0, rows[j].0) {
      assert rows[i] == AllRows(h, names)[i - 1] && rows[j] == AllRows(h, names)[j - 1];
    }
  }

  lemma StripLineBreak(s: string)
    requires s != [] && !IsSpace(s[0]) && !IsSpace(s[|s| - 1])
    ensures Strip(s + "\r\n") == s
  {
    var t := s + "\r\n";
    assert t[0] == s[0];
    assert StripStart(t) == t;
    assert t[..|t| - 1] == s + "\r";
    assert (s + "\r")[..|s|] == s;
    assert StripEnd(t) == StripEnd(s + "\r") == StripEnd(s);
  }

  lemma {:induction false} JoinLast(rows: seq<(string, string)>)
    requires rows != []
    ensures Join(rows) == Join(rows[..|rows| - 1]) + Row(rows[|rows| - 1])
  {
    if |rows| > 1 {
      JoinLast(rows[1..]);
      assert rows[1..][..|rows| - 2] == rows[..|rows| - 1][1..];
    }
  }

  /** The last character a row writes before its line break is never whitespace when its date does not end in whitespace. */
  lemma RowEnd(r: (string, string))
    requires r.1 == [] || !IsSpace(r.1[|r.1| - 1])
    ensures var body := Field(r.0) + "," + Field(r.1);
      && Row(r) == body + "\r\n" && body != [] && !IsSpace(body[|body| - 1])
  {
  }

  lemma HeaderRow()
    ensures Row(("equipo", "fecha")) == "equipo,fecha\r\n"
  {
    assert !NeedsQuotes("equipo") by {
      forall i | 0 <= i < 6 ensures "equipo"[i] in "equipo" {}
    }
    assert !NeedsQuotes("fecha") by {
      forall i | 0 <= i < 5 ensures "fecha"[i] in "fecha" {}
    }
  }

  lemma JoinFirst(h: map<string, seq<string>>, keys: seq<string>)
    requires forall k :: k in keys <==> k in h
    ensures |Join(CsvRows(h, keys))| > 0 && Join(CsvRows(h, keys))[0] == 'e'
  {
    var rows := CsvRows(h, keys);
    HeaderRow();
    assert Join(rows) == Row(rows[0]) + Join(rows[1..]);
  }

  lemma LastRowEnd(h: map<string, seq<string>>, keys: seq<string>)
    requires Distinct(keys) && forall k :: k in keys <==> k in h
    requires forall n, f :: n in h && f in h[n] ==> f == [] || !IsSpace(f[|f| - 1])
    ensures var rows := CsvRows(h, keys); var f := rows[|rows| - 1].1;
      f == [] || !IsSpace(f[|f| - 1])
  {
    var rows := CsvRows(h, keys);
    CsvRowsSpec(h, keys);
    var last := rows[|rows| - 1];
    if |rows| > 1 {
      assert last in rows[1..];
      assert last.0 in h && last.1 in h[last.0];
    }
  }

  /**
    The final `strip()` removes only the last line break: when no date ends
    in whitespace, the text is every row written, without the CR LF after
    the last one.
   */
  lemma CsvText(h: map<string, seq<string>>, keys: seq<string>)
    requires Distinct(keys) && forall k :: k in keys <==> k in h
    requires forall n, f :: n in h && f in h[n] ==> f == [] || !IsSpace(f[|f| - 1])
    ensures ConstruirCsv(h, keys) + "\r\n" == Join(CsvRows(h, keys))
  {
    LastRowEnd(h, keys);
    JoinFirst(h, keys);
    StripJoin(CsvRows(h, keys));
  }

  /** Rows whose text starts with a non-space and whose last date does not end in one lose only the final CR LF. */
  lemma StripJoin(rows: seq<(string, string)>)
    requires rows != [] && |Join(rows)| > 0 && !IsSpace(Join(rows)[0])
    requires var f := rows[|rows| - 1].1; f == [] || !IsSpace(f[|f| - 1])
    ensures Strip(Join(rows)) + "\r\n" == Join(rows)
  {
    var last := rows[|rows| - 1];
    JoinLast(rows);
    RowEnd(last);
    var body := Join(rows[..|rows| - 1]) + (Field(last.0) + "," + Field(last.1));
    assert Join(rows) == body + "\r\n";
    assert body[0] == Join(rows)[0];
    StripLineBreak(body);
  }
}
