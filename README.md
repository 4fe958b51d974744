# Maintenance-date store, modelled in Dafny

This project models the storage core of a refrigeration-maintenance tracker.
That core is the `StorageService` class in `main.py`. It keeps one document of
three lists:

- equipment: id, name, section, type, slot within its type, and a note;
- maintenance events: id, owning equipment id, date text, and the interval in days to the next event;
- the catalog of equipment types.

Every operation reads or rewrites these lists. Two helpers nested in the
application's `main` are also modelled: `calculate_days` (the next due date and
the days left) and `construir_csv_historial` (the history export as CSV).

The model has two layers:

- **A value layer.** Module `Document` gives a pure function over a `Doc` value
  for each mutating operation. Modules `Queries`, `Search`, `History`,
  `DueDate` and `CsvExport` do the same for the read-only operations. The
  lemmas state what each operation guarantees, including these:
  - what changes and what stays;
  - the exact success and failure conditions;
  - that the store's consistency invariant is preserved: unique ids, unique
    names, unique event ids, no orphaned event;
  - that an insertion never makes two equipment of a type share a slot, and
    keeps slots that ran 0..count-1 that way; a swap keeps each type's
    multiset of slots. `save_equipo` writes any slot it is given and
    `delete_equipo` leaves gaps, so neither keeps that shape;
  - that the search ranking is sorted, complete and stable;
  - that the history lists exactly the kept events, newest first, with a
    count that matches;
  - that CSV fields round-trip.
- **An object layer.** Module `Store` has the class `StorageService`, whose
  three list fields its methods update in place. The name and slot lookups,
  the rename collision check, the slot shift of an insertion, the per-type
  view, the search scoring and the history's nested loops are loops, as in the
  source. The three filtering list comprehensions (`delete_equipo`,
  `reset_mantenimiento`, `borrar_historial_entre_fechas`) reassign the lists
  to the value layer's recursive filters. Each method is proved to leave the
  object's document (and to return) exactly what the value layer gives. So every lemma
  of the value layer holds for the object.

Supporting modules:

- `Text`: Python's `str.strip`, substring search, `startswith`, slicing to 50
  characters, and code-point string ordering.
- `Dates`: the proleptic Gregorian calendar with day ordinals as in
  `date.toordinal`, `timedelta` arithmetic, strict `%Y-%m-%d` parsing and
  formatting, and `%d/%m/%Y` display.
- `Records`: the entities and the lookups shared by every operation.
- `Ranking`: Python's stable `sort(key=..., reverse=True)`.

Some inputs come from outside the process, so they are parameters:

- The current time (`datetime.now()`) is a `Clock`: a day and the
  microseconds since its midnight. The history operation takes only the day.
- Unicode accent stripping and lower-casing (`limpiar_texto`) is the parameter
  `norm: string -> string`.
- JSON decoding in `importar_datos_json` is an `Option<Doc>`: the decoded
  document, or None when decoding fails.

Where the code and its design notes disagree, the model follows the code:

- **The search's 400 tier.** The code gives 400 when `_` followed by the query
  occurs anywhere in the name, not only when the query is a whole `_`-separated
  token. As a result the per-part scores of 200 and 100 can never be reached.
  A name that merely contains the query already scores 300 or more
  (`Search.ScoreTiers`). A name such as `cafetera_vieja` searched with
  `cafetera` scores 500, because it is a prefix.
- **History date bounds.** Each bound applies on its own when it is given, not
  only when both are given.
- **Days remaining.** These are floored against the current instant. After
  midnight that is one fewer than the calendar difference.
- **Capacity.** `save_equipo` creates equipment without checking the 10-per-type
  capacity. Only `insert_equipo_at_position` enforces it
  (`Document.SaveEquipoIgnoresCapacity`).

## Model

| member | source | states |
|---|---|---|
| Store.StorageService.constructor | main.py:42-46 | a new store holds three empty lists |
| Store.StorageService.InitializeDefaultData | main.py:104-144 | the store is reset to no equipment, no events and the 30-type seed catalog |
| Document.DefaultTiposSpec | main.py:106-143 | the seed catalog has 30 types with ids 1..30, each in one of the five sections, and the seeded document is consistent |
| Store.StorageService.ImportarDatos | main.py:522-529 | a document that decodes replaces the whole state and yields True; one that does not leaves the state alone and yields False |
| Records.IndexOfName | main.py:184-185 | the lookup finds the first equipment with the name, and None exactly when no equipment has it |
| Records.IndexOfSlot | main.py:336-337 | the lookup finds the first equipment of the type in the slot, and None exactly when there is none |
| Store.StorageService.FindByName | main.py:213-216 | the scan loop returns the same index as `Records.IndexOfName` |
| Store.StorageService.FindBySlot | main.py:345-346 | the scan loop returns the same index as `Records.IndexOfSlot` |
| Records.LastMant | main.py:153-154 | the current event of an equipment is its last event in list order, and None exactly when it has no event |
| Records.LastMantAppend | main.py:223-228 | an appended event becomes its equipment's current event, and other equipment keep theirs |
| Records.NextId | main.py:193 | `max(ids, default=0)+1` is above every id in use, 1 for an empty list, and one more than some id otherwise |
| Records.DropEquipo | main.py:249 | the filtered equipment list holds exactly the records whose id differs |
| Records.DropMantsOf | main.py:247 | the filtered event list holds exactly the events of other equipment |
| Records.DropEquipoConcat | main.py:249 | the comprehension keeps survivors in their original order |
| Records.DropMantsOfConcat | main.py:247 | the comprehension keeps survivors in their original order |
| Records.CountTipo | main.py:366-367 | the count of a type is zero exactly when no equipment has that type |
| Records.CountTipoSingle | main.py:366-367 | one record counts 1 exactly when it has the type, and 0 otherwise |
| Records.CountTipoConcat | main.py:366-367 | counts add up over concatenation, so the count is the number of records of the type |
| Records.SlotsUpdate | main.py:338-339 | replacing one record changes a type's multiset of slots by that record alone |
| Document.SaveEquipoExisting | main.py:184-190 | on a known name only the first such record's section, type and slot change; its id, name and note, every other record, the events and the catalog stay |
| Document.SaveEquipoNew | main.py:192-203 | on a new name one record is appended with id max(existing ids)+1 (1 in an empty store) and an empty note; all else stays |
| Document.SaveEquipoConsistent | main.py:180-206 | saving equipment preserves unique ids, unique names, unique event ids and the absence of orphaned events |
| Document.SaveEquipoIgnoresCapacity | main.py:192-203 | a type already holding 10 equipment gets an 11th through this path |
| Store.StorageService.SaveEquipo | main.py:180-206 | the method always returns True and leaves the document that `Document.SaveEquipo` gives |
| Document.SaveMantenimientoSpec | main.py:208-233 | the event is saved exactly for a known name; it is appended with that equipment's id, the id max(event ids)+1 (1 when there is none) and the given date and interval, and it becomes the current event; on failure nothing changes |
| Document.SaveMantenimientoConsistent | main.py:208-233 | saving an event preserves the consistency invariant |
| Store.StorageService.SaveMantenimiento | main.py:208-233 | the new state and the result equal those of `Document.SaveMantenimiento` |
| Document.DeleteEquipoSpec | main.py:235-254 | afterwards no equipment has the deleted id and no event refers to it; every other record and event survives in order; the catalog stays; an unknown name changes nothing |
| Document.DeleteEquipoRemovesName | main.py:239-249 | in a consistent store the name is gone after deletion |
| Document.DeleteEquipoConsistent | main.py:235-254 | deletion preserves the consistency invariant |
| Store.StorageService.DeleteEquipo | main.py:235-254 | the method always returns True and leaves the document that `Document.DeleteEquipo` gives |
| Document.ResetMantenimientoSpec | main.py:256-272 | exactly that equipment's events are removed, so it has no current event; equipment and catalog stay, and the other events stay in their order (the list is the ordered filter `DropMantsOf`); an unknown name changes nothing |
| Document.ResetMantenimientoConsistent | main.py:256-272 | the reset preserves the consistency invariant |
| Store.StorageService.ResetMantenimiento | main.py:256-272 | the method always returns True and leaves the document that `Document.ResetMantenimiento` gives |
| Queries.GetNotaUnknown | main.py:274-279 | an unknown name reads as the empty note |
| Queries.SetThenGetNota | main.py:274-291 | reading back a note just set gives its prefix of at most 50 characters, and the whole note when it fits |
| Store.StorageService.GetNota | main.py:274-279 | the scan returns the note that `Queries.GetNota` gives |
| Document.SetNotaSpec | main.py:281-291 | the note is set exactly for a known name; only that record's note changes, to a prefix of at most 50 characters of the given text; setting it twice equals setting it once |
| Document.SetNotaConsistent | main.py:281-291 | setting a note preserves the consistency invariant |
| Store.StorageService.SetNota | main.py:281-291 | the new state and the result equal those of `Document.SetNota` |
| Document.RenameChecks | main.py:293-313 | each message is returned exactly when its check fails, in the source's order: blank name, name taken by another equipment, unknown old name; success comes exactly with the success message; any failure leaves the document alone |
| Document.RenameSuccess | main.py:299-311 | on success only the first record with the old name changes, and only its name, which becomes the stripped new name with no surrounding whitespace |
| Document.RenameSelf | main.py:303-311 | renaming an equipment to its own already-stripped name succeeds and changes nothing |
| Document.RenameConsistent | main.py:293-315 | renaming preserves the consistency invariant, unique names included |
| Store.StorageService.Collides | main.py:302-304 | the scan reports a collision exactly when the new name differs from the old one and some equipment already has it |
| Store.StorageService.Rename | main.py:293-315 | the new state, the flag and the message equal those of `Document.Rename` |
| Document.Neighbour | main.py:334-350 | a target slot exists exactly for "arriba" from a slot above 0, or for "abajo", and it is the slot above or below |
| Document.ChangePositionSpec | main.py:317-355 | the move succeeds exactly when the name is known, the direction allows it and a same-type record sits in the target slot; then exactly those two records trade slots and nothing else changes; on failure nothing changes |
| Document.ChangePositionSlots | main.py:317-355 | every type keeps the same multiset of occupied slots |
| Document.ChangePositionConsistent | main.py:317-355 | a move preserves the consistency invariant |
| Store.StorageService.ChangePosition | main.py:317-355 | the new state and the result equal those of `Document.ChangePosition` |
| Document.Clamp | main.py:371-374 | the requested slot is clamped into 0..count, and kept when already inside |
| Document.InsertAtSpec | main.py:357-395 | the insert succeeds exactly for a new name and a type with fewer than 10 records; the type then holds one more (never above 10); the new record sits in the clamped slot with id max(existing ids)+1 (1 in an empty store) and an empty note; same-type records from that slot on move down one; all else stays; on failure nothing changes |
| Document.InsertAtDistinct | main.py:376-390 | when no two equipment of a type share a slot (gaps allowed), none do after an insertion, for every type |
| Document.InsertAtSlotted | main.py:376-390 | when a type's slots are distinct and run from 0 to count-1, they still do after an insertion, for every type |
| Document.InsertAtConsistent | main.py:357-395 | an insertion preserves the consistency invariant |
| Store.StorageService.InsertAt | main.py:357-395 | the shift loop and append leave the state and return the result that `Document.InsertAt` gives |
| Document.DropInRange | main.py:503-506 | the events kept by the purge are exactly those whose date text is outside the inclusive text range |
| Document.DropInRangeConcat | main.py:503-506 | the purge keeps the surviving events in their original order: it distributes over concatenation |
| Document.DropInRangeCount | main.py:502-507 | the kept events and the purged events together make up the whole list |
| Document.BorrarHistorialSpec | main.py:499-512 | the purge returns the number of events dated inside the range, keeps exactly the others in their order (the list is the ordered filter `DropInRange`), and leaves equipment and catalog alone |
| Document.BorrarHistorialConsistent | main.py:499-512 | the purge preserves the consistency invariant |
| Store.StorageService.BorrarHistorial | main.py:499-512 | the new state and the count equal those of `Document.BorrarHistorial` |
| Queries.EquiposPorTipo | main.py:147-163 | the map's keys are exactly the names of the equipment of that type |
| Queries.EquiposPorTipoSpec | main.py:147-163 | with unique names each equipment of the type maps to its section, slot, note and current event; the date is absent exactly when it has no event |
| Store.StorageService.GetEquiposPorTipo | main.py:147-163 | the loop builds the same map as `Queries.EquiposPorTipo` |
| Queries.GetEquipoData | main.py:165-178 | the answer is None exactly when no equipment has the name |
| Queries.GetEquipoDataSpec | main.py:165-178 | the answer is the first such equipment's name and section with the date and interval of an event of it after which it has no other event; both are absent exactly when it has no event |
| Queries.SaveThenGetEquipoData | main.py:165-233 | after an event is saved for a known name, that name reports the event's date and interval |
| Store.StorageService.GetEquipoData | main.py:165-178 | the scan returns what `Queries.GetEquipoData` gives |
| Queries.TiposPorSeccion | main.py:397-399 | the pairs are exactly (code, display name) of the section's types, never more than the catalog holds |
| Queries.TiposPorSeccionSingle | main.py:399 | one type gives its (code, display name) exactly when it is in the section, and nothing otherwise |
| Queries.TiposPorSeccionConcat | main.py:399 | the pairs follow catalog order: those of a concatenation are those of each part in turn |
| Queries.TiposPorSeccionTodos | main.py:397-403 | the full catalog listing has one entry per type, and a section's pairs are the (code, display name) of the listing's entries in that section, in listing order |
| Queries.EquiposPorTipoAll | main.py:514-516 | the full equipment listing has one row per equipment, and a name appears in a type's view exactly when some row of the listing has that name and type |
| Queries.SaveThenAllEquipos | main.py:514-516 | after `save_equipo` on a known name the listing shows the new section, type and slot in that record's row and every other row unchanged |
| Text.StripSpec | main.py:296-299 | `strip()` leaves neither leading nor trailing whitespace, keeps a contiguous part of the text, and is empty exactly for blank text |
| Text.Truncate | main.py:286 | `[:50]` gives a prefix that is at most 50 long, and the whole text when it fits |
| Text.LexTrichotomy | main.py:505 | code-point string order is total |
| Text.LexTransitive | main.py:505 | code-point string order is transitive |
| Search.ReplaceDashesSpec | main.py:435 | no `-` is left after the replacement, and a name without dashes is unchanged |
| Search.Split | main.py:435 | `split("_")` gives at least one part; the first part is a prefix; no part contains the separator; each part occurs in the text |
| Search.PartsScoreNone | main.py:436-441 | a query found in no part scores 0 over the parts |
| Search.ScoreTiers | main.py:426-441 | each score holds exactly in its case: 1000 for equality, 500 for a prefix, 400 for `_` plus the query elsewhere, 300 for any other occurrence, and 0 exactly when the query does not occur |
| Search.Candidates | main.py:421-449 | the candidates are exactly the equipment with a positive score for their normalised name, each with that score |
| Search.CandidatesSingle | main.py:422-449 | one equipment is a candidate, with its score, exactly when its normalised name scores above 0 |
| Search.CandidatesConcat | main.py:422-449 | candidates follow equipment-list order: those of a concatenation are those of each part in turn |
| Search.RankedSpec | main.py:451 | the ranking is sorted best first; it holds exactly the candidates, with every matching equipment among them; equal scores keep the candidates' order, which is list order |
| Search.BuscarEmpty | main.py:405-419 | an empty query, or one that normalises to nothing, finds nothing |
| Search.BuscarSpec | main.py:405-452 | a search returns the first min(25, matches) ranked equipment as (name, section, type), in ranking order; with 25 matches or fewer every matching equipment is among them |
| Search.BuscarBounded | main.py:452 | no search returns more than 25 results |
| Store.StorageService.BuscarEquipos | main.py:405-452 | the scoring loop, sort and slice return what `Search.Buscar` gives |
| Ranking.SortDescSpec | main.py:451 | the stable descending sort yields a sorted permutation of its input that keeps the order of equal keys |
| Ranking.Take | main.py:452 | `[:n]` is the input when it fits, and otherwise its first n elements |
| Dates.ParseFormat | main.py:474 | parsing the `%Y-%m-%d` text of a date gives that date back |
| Dates.FormatParse | main.py:474 | a text that parses is the canonical text of its date |
| Dates.FormatOrder | main.py:470 | for valid dates, comparing `%Y-%m-%d` texts as strings agrees with comparing the days |
| Dates.DisplayInjective | main.py:489 | distinct dates display as distinct `%d/%m/%Y` texts |
| Dates.AddDaysOrdinal | main.py:456 | adding a `timedelta` of k days moves the day ordinal by k |
| History.EventVerdict | main.py:469-486 | a kept event always carries a valid date |
| History.KeepSpec | main.py:469-486 | an event is kept exactly when its text parses, its day is no earlier than the cutoff day, and it lies inside each bound that is given |
| History.FailSpec | main.py:478-485 | the loop body raises only on a bound that is given and does not parse |
| History.EventsOfSpec | main.py:465-486 | the inner loop keeps exactly the kept events of the equipment, and raises exactly when one of them raises |
| History.CollectSpec | main.py:461-490 | both loops together give exactly (name, date) for the kept events of selected equipment, and raise exactly when one such event raises |
| History.GroupSpec | main.py:490 | `setdefault(...).append` collects under each name exactly that name's dates, in the order met |
| History.NewestFirst | main.py:493-494 | each name's dates are sorted newest first, as a permutation of the dates collected |
| History.Cutoff | main.py:456 | the cutoff is the day 730 days before today, and it exists exactly when that day is in Python's range |
| History.HistorialOverflow | main.py:456 | before 0003-01-01 the cutoff underflows and the call raises |
| History.HistorialDefined | main.py:454-497 | with well-formed bounds (or none) and a representable cutoff the call always answers |
| History.HistorialSpec | main.py:454-497 | the answer has one entry per name with a kept event, listing that name's kept dates newest first as DD/MM/YYYY; the count is the number of kept events |
| History.HistorialSound | main.py:461-490 | every listed event lies within the last 730 days and inside the given bounds, and belongs to a selected equipment of that name |
| History.HistorialTotal | main.py:488-497 | the count returned equals the number of dates listed, summed over the names in any order |
| Store.StorageService.CollectEvents | main.py:465-490 | the inner loop raises exactly when the value model does; otherwise it appends exactly the kept dates of this equipment, keeping the grouped map and the count in step |
| Store.StorageService.ObtenerHistorial | main.py:454-497 | the nested loops, the per-name sort and the display step return what `History.Historial` gives |
| DueDate.NextDue | main.py:848-854 | a due date, when there is one, is a valid date |
| DueDate.DaysUntilValue | main.py:855 | `(due - now).days` is the calendar difference, one less once the day has begun |
| DueDate.CalculateDaysSpec | main.py:845-858 | an answer comes exactly when the current event has a non-empty parsable date and a non-zero interval landing in range; the due date is then that many days after the event, and the days left are counted from today to it |
| DueDate.SaveThenCalculateDays | main.py:208-233 | saving an event with a canonical date and a positive interval makes the countdown start from that event |
| CsvExport.SortKeys | main.py:725 | `sorted(keys)` keeps the same names and the same count |
| CsvExport.SortKeysSorted | main.py:725 | the sorted names are strictly increasing |
| CsvExport.SortKeysCanonical | main.py:725 | any two enumerations of the same distinct names sort to the same list |
| CsvExport.FieldRoundTrip | main.py:723-727 | un-quoting a written field gives the original text back |
| CsvExport.AllRowsSpec | main.py:725-727 | one row per listed date, holding exactly the (name, date) pairs of the history; with each name listed once, a name's rows carry exactly its dates in the order listed, repeats included |
| CsvExport.CsvRowsSpec | main.py:721-727 | the header comes first, then one row per listed date and no other; each name's rows carry exactly its dates in the order listed, repeats included, and names are in non-decreasing order |
| CsvExport.DatesInConcat | main.py:725-727 | the dates of one name's rows distribute over consecutive blocks of rows |
| CsvExport.DatesInTag | main.py:726-727 | the rows written for one name carry its dates in order, and no date of any other name |
| CsvExport.CsvText | main.py:721-728 | the final `strip()` removes only the last line break when no date ends in whitespace |

## Left out

- Persistence is not modelled: `load`, `save`, the client-storage or file
  backends and the `page` handle (main.py:30-41, 48-102). `save()` changes no
  modelled state. Every mutator ignores its result.
- `exportar_datos_json` (main.py:518-520) is JSON encoding of the unchanged
  state, so it is left out.
- JSON decoding is left out. `importar_datos_json` receives the decoded
  document as `Option<Doc>`, with None for a decoding failure. A decoded
  document missing keys or holding values of the wrong type is not modelled:
  every record in the model is well-typed.
- Store.StorageService.SaveEquipo: modelled as always returning True. The same
  holds for DeleteEquipo and ResetMantenimiento. The `except` branches that
  return False need a record missing a key, which typed records cannot be.
- Missing-key defaults are not modelled: `eq.get("posicion", 0)`, `.get("nota", "")`
  and `.get("id", 0)`. Every record has every field.
- Queries.EquiposPorTipo: returns a map, so the key order of the Python dict
  (first appearance in the equipment list) is lost. The murals view numbers
  its cards and enables the up and down buttons in that order. The per-name
  contents are modelled; the order of the names is not.
- Unicode NFD decomposition, dropping combining marks, and `lower()` are not
  modelled. They are the parameter `norm`.
- Search.Split: the ensures does not restate that joining the parts with the
  separator gives the text back. The parts branch of the scoring cannot be
  reached anyway (`Search.ScoreTiers`).
- Dates.Parse: accepts only the zero-padded `YYYY-MM-DD` form. Python's
  `strptime` also accepts unpadded fields such as `2024-1-5`, and matches its
  digits with `\d`, which takes non-ASCII decimal digits too; `Parse` accepts
  ASCII `0`-`9` only. Those texts are treated as unparsable.
- Dates.Format: years below 1000 are zero-padded to four digits. The
  platform's `strftime` may not pad them. The same holds for `Dates.Display`,
  the `%d/%m/%Y` text that `calculate_days` and the history return.
- History.Historial: the `ValueError` raised for a bound that does not parse,
  and the `OverflowError` for a cutoff before year 1, are modelled as None.
  Exceptions are not modelled further.
- DueDate.CalculateDays: takes the equipment data rather than the name.
  Calling `get_equipo_data` first is composed in `DueDate.SaveThenCalculateDays`.
  The microsecond part of `datetime.now()` is an input, not read from a clock.
- CsvExport.ConstruirCsv: models Python's default `csv` dialect only for
  string fields. A field is quoted when it holds `,`, `"`, CR or LF, and a
  quote inside is doubled. The closing claim is conditional: no date may end
  in whitespace, which holds for the `%d/%m/%Y` texts the history produces.
- Text.IsSpace: Python's `isspace` covers the ASCII whitespace characters and
  the Unicode separators. The model lists that set of characters explicitly.
- The user interface in `main` is not part of this model: views, dialogs,
  themes, HTML export and file saving (main.py:531 onwards, apart from the two
  helpers above).
