# Masivos bulk tickets and the Escalación form, modelled in Dafny

This project models the logic of the bulk-ticket page ("Masivos") of a support team's
web tool, and the two pure pieces of its escalation form ("Escalación"), all in
`assets/script.js`.

The Masivos page takes rows pasted from a spreadsheet (`ticket, id, date`). It then:

- groups the rows by circuit id and sorts each group by date, newest or oldest first;
- highlights the head of each group and selects it automatically;
- gives every selected ticket an engineer from a roster, by category tag or round-robin;
- lets the user click tickets in and out of the selection;
- copies the selection out with the engineers' tags removed.

The Escalación form spreads one pasted row over its fields. When the form is copied, it
derives a service type from a priority chain of rules.

The files follow the program's structure:

| file | module | what it holds |
|---|---|---|
| `wrappers.dfy` | `Wrappers` | `Option`: JavaScript's `null` / `NaN` results |
| `text.dfy` | `Text` | `trim`, `split` on one-character separators, `join`, `toLowerCase`, `includes` |
| `records.dfy` | `Records` | `parseExcelText` |
| `sorting.dfy` | `Sorting` | `parseFecha` and the stable sort by date |
| `grouping.dfy` | `Grouping` | `agruparYOrdenar` (as imperative loops over a map) and the sorted key order of `renderSalida` |
| `engineers.dfy` | `Engineers` | `obtenerIngenieros`, `extraerEtiquetaTik`, `asignarIngeniero` and round-robin fairness |
| `tags.dfy` | `Tags` | the tag-stripping `replace(/\s*\([^)]*\)/g, "")` of the copy button |
| `selection.dfy` | `Selection` | the selection list: toggle, auto-selection, export, as functions on values |
| `masivos.dfy` | `Masivos` | class `Session`: the closure state `ordenDesc`, `seleccionados` and `engineerIndex` with the handlers as methods, proved against `Selection` |
| `escalacion.dfy` | `Escalacion` | the `mapeo` field mapping and the `tipoServicio` classifier |

Conventions:

- `Date.parse` is the parameter `dateParse: string -> Option<int>`, where `None` is `NaN`.
- The roster text (`engineersInput.value`) is a parameter of every operation that reads it.
  The source reads it afresh at every assignment.
- `Session.input` is the paste box. `Session.Edit` stands for the user typing into it.
- The rows behind the displayed items are passed to the click handler as they are. The
  `data-*` attributes of an item hand the same strings back.

The line kept as a row's `raw` is a piece of the trimmed pasted text
(`text.trim().split(...)`, line 225). So the first line loses its leading white space and
the last line its trailing white space. The model follows the code here: `raw` is not the
untouched pasted line. `Records.OneRowPerNonBlankLine` states what does hold: once trimmed,
the kept lines are exactly the non-blank lines of the untrimmed text.

## Model

| member | source | states |
|---|---|---|
| Text.Trim | assets/script.js:225 | `trim()` leaves no white space at either end, never lengthens, and yields `""` exactly for all-white-space text |
| Text.TrimStartSpec | assets/script.js:225 | the start-trim removes exactly the longest white-space prefix: the result is a suffix, what is cut is all white space, and the result starts with a non-space |
| Text.TrimEndSpec | assets/script.js:225 | the end-trim removes exactly the longest white-space suffix |
| Text.TrimSurround | assets/script.js:225 | every text is white space, then its trimmed form, then white space |
| Text.SplitJoin | assets/script.js:227 | splitting at a separator undoes joining with it when no piece holds a separator |
| Text.JoinSplit | assets/script.js:414-416 | joining the pieces of a split at `c` with `c` gives the text back |
| Text.SplitAppendChar | assets/script.js:225 | one more character either starts a new empty piece (a separator) or extends the last piece |
| Text.NonBlankLinesOfTrim | assets/script.js:225 | trimming the whole text before cutting it at white-space separators and dropping blank lines changes no kept line, up to trimming |
| Text.Lower | assets/script.js:293 | `toLowerCase` maps each character on its own and keeps the length |
| Text.ContainsAcross | assets/script.js:857-859 | a pattern without `c` occurs in `a + c + b` exactly when it occurs in `a` or in `b` |
| Records.Cell | assets/script.js:227-231 | a cell is the trimmed piece at its position, or `""` past the end of the line; it is trimmed and holds no separator when its piece holds none |
| Records.ParseLine | assets/script.js:226-233 | a row keeps its line as `raw`; `tik`, `id` and `fecha` are trimmed and hold no tab or comma; a line with fewer than two or three cells gets an empty `id` or `fecha` |
| Records.ParseExcelText | assets/script.js:224-235 | one row per kept line, never failing; each `raw` is non-blank and holds no line break |
| Records.OneRowPerNonBlankLine | assets/script.js:225 | the rows' lines, trimmed, are the non-blank lines of the untrimmed text at `\n` or `\r`, trimmed, in order: the blank pieces of `\r\n` are dropped |
| Records.ParseFormattedLine | assets/script.js:227-231 | a line written from plain cells parses back to cells 0, 1 and 2, with `""` for a missing cell |
| Records.ParseFormatSheet | assets/script.js:224-235 | a sheet written from plain cells parses back to one row per sheet line, fields 0/1/2 in order, `raw` the written line |
| Records.KeptSheetLines | assets/script.js:225 | the kept lines of a written sheet are its lines |
| Sorting.FechaKey | assets/script.js:237-241 | the date key is 0 for an empty or unparseable date and the parsed timestamp otherwise |
| Sorting.SortRowsSorted | assets/script.js:251-255 | every group is ordered by the comparator: non-increasing date when `ordenDesc`, non-decreasing otherwise |
| Sorting.SortRowsPermutes | assets/script.js:252 | sorting is a permutation |
| Sorting.SortRowsStable | assets/script.js:252 | rows of equal date keep their input order |
| Sorting.InsertPermutes | assets/script.js:252 | one insertion step is a permutation |
| Sorting.InsertSorted | assets/script.js:252 | one insertion step keeps the list sorted |
| Sorting.InsertStable | assets/script.js:252 | one insertion step keeps equal-date rows in order |
| Sorting.SortedUnique | assets/script.js:252 | a sorted list with the same equal-date subsequences is unique, so every stable sort agrees with this one |
| Sorting.DescendingIsReversedAscending | assets/script.js:253 | newest-first order is the reverse of oldest-first order over the reversed input |
| Sorting.FlipReversesWithoutTies | assets/script.js:398-408 | with pairwise distinct dates, toggling the order exactly reverses every group |
| Sorting.HeadIsFirstExtreme | assets/script.js:262 | the head of a sorted group is the earliest input row among those with the extreme date |
| Grouping.CollectBuckets | assets/script.js:244-249 | the `forEach` loop builds, for every id, the rows with that id in input order |
| Grouping.BucketsSnoc | assets/script.js:247-248 | one row goes onto the end of its own bucket, created empty when new, and no other bucket changes |
| Grouping.SortBuckets | assets/script.js:251-255 | the second loop sorts every bucket and leaves the keys alone |
| Grouping.GroupAndSort | assets/script.js:243-258 | `agruparYOrdenar` returns every id's rows sorted by date |
| Grouping.BucketCount | assets/script.js:245-249 | a bucket holds every row of its id as often as the input does, and no other row |
| Grouping.GroupedPartition | assets/script.js:243-258 | partition: every row is in its own id's group as often as in the input and in no other group, and no group is empty |
| Grouping.GroupedOrder | assets/script.js:243-258 | each group is date-sorted and keeps the input order of equal dates |
| Grouping.PrototypeIdsThrow | assets/script.js:244-248 | as written, the loop throws exactly when some id names an inherited `Object.prototype` member; otherwise it yields the intended buckets |
| Grouping.ConstructorIdThrows | assets/script.js:244-248 | a single row with id `constructor` makes the loop as written throw |
| Grouping.SortKeys | assets/script.js:365 | the keys are strictly ascending and are exactly the group ids |
| Grouping.SortedKeysUnique | assets/script.js:365 | two strictly sorted key lists with the same members are equal |
| Grouping.LexTotal | assets/script.js:365 | the string order of `sort()` is total and antisymmetric |
| Grouping.LexTransitive | assets/script.js:365 | the string order of `sort()` is transitive |
| Engineers.AtName | assets/script.js:274 | a name gets exactly one added `@`, and none when it already starts with one |
| Engineers.ParseEngineer | assets/script.js:273-275 | the name starts with `@`; a tag is present only when non-empty and is trimmed |
| Engineers.ParseEngineers | assets/script.js:267-277 | one engineer per kept roster line, in order |
| Engineers.OneEngineerPerNonBlankLine | assets/script.js:268-271 | there are as many engineers as non-blank roster lines |
| Engineers.ParseFormattedEngineer | assets/script.js:272-276 | a roster line `name` or `name\|tag` written from a plain engineer parses back to that engineer |
| Engineers.ParseFormatRoster | assets/script.js:267-277 | a roster written from plain engineers parses back to the same list |
| Engineers.ExtractTag | assets/script.js:279-284 | the category is one of the three names, and there is none exactly when no phrase occurs, case-insensitively; the phrases are tried in order: "caída total" (with or without the accent) wins over "degradaci", which wins over "sin servicio afectado" |
| Engineers.ExtractTagMonotone | assets/script.js:279-284 | more text around a ticket line can only keep or raise its category's priority |
| Engineers.FindTagged | assets/script.js:293 | `find` gives the first engineer whose tag equals the category, case-insensitively, or none |
| Engineers.LibresMembers | assets/script.js:297 | the generalists are exactly the untagged engineers |
| Engineers.AssignFrom | assets/script.js:288-306 | an empty roster gives `"@"` and keeps the cursor; a tag match gives `nombre (etiqueta)` of a tagged engineer and keeps the cursor; a fallback gives the round-robin pick at the cursor and advances it by one |
| Engineers.TurnIsMod | assets/script.js:299 | the turn of cursor `c` among `n` is `c % n` |
| Engineers.NoGeneralistAllTagged | assets/script.js:304-306 | without generalists the roster fallback always shows `nombre (etiqueta)` |
| Engineers.Assign | assets/script.js:286-307 | every assignment text starts with `@`, and the cursor advances by at most one |
| Engineers.RunCursor | assets/script.js:286-307 | after a run of assignments the cursor has advanced by the number of fallbacks |
| Engineers.RoundRobin | assets/script.js:297-306 | a run of untagged tickets gets the fallback picks at consecutive cursor values |
| Engineers.PicksAt | assets/script.js:299-300 | the `k`-th pick of a run from `c` is the pick at cursor `c + k` |
| Engineers.RoundRobinFair | assets/script.js:299-300 | arithmetic step for `Engineers.FallbackFair`: over `M` consecutive cursor values, each remainder modulo `N` occurs ⌊M/N⌋ or ⌈M/N⌉ times |
| Engineers.AssignRunAt | assets/script.js:286-307 | in any run, a line that no tagged engineer takes gets the fallback pick at the start cursor plus the number of earlier fallback lines; tagged lines in between do not move the cursor |
| Engineers.RunIndex | assets/script.js:286-307 | line `k` of a run is assigned from the cursor the first `k` lines leave behind |
| Engineers.RunAppend | assets/script.js:286-307 | a run over two batches of lines is the first batch's run followed by the second's, from the cursor the first leaves |
| Engineers.FallbackGeneralist | assets/script.js:297-301 | with `N > 0` generalists, the fallback line `k` of any run from cursor `c` gets `libres[(c + f) % N].nombre`, where `f` counts the fallback lines before it |
| Engineers.FallbacksAppend | assets/script.js:297-301 | the fallback count of two batches of lines is the sum of their counts |
| Engineers.ServedIsHits | assets/script.js:297-301 | the number of fallback lines of a run that generalist `j` serves equals the number of the run's fallback turns whose remainder modulo `N` is `j` |
| Engineers.FallbackFair | assets/script.js:297-301 | over any run with `M` fallback lines (tagged lines interleaved anywhere), each generalist serves ⌊M/N⌋ of them, or ⌊M/N⌋ + 1 when `N` does not divide `M` |
| Tags.TagAtIff | assets/script.js:415 | `TagAt` finds a match of `\s*\([^)]*\)` at the start exactly when the pattern matches that prefix |
| Tags.StripTagsClean | assets/script.js:415 | after stripping, no `(` is followed by a `)` |
| Tags.CleanFixed | assets/script.js:415 | a text with no `(` followed by `)` is left unchanged |
| Tags.StripTagsIdempotent | assets/script.js:415 | stripping twice is stripping once |
| Tags.StripTrailingTag | assets/script.js:415 | `name (tag)` loses exactly ` (tag)` |
| Tags.StripChars | assets/script.js:415 | stripping adds no character |
| Selection.EntryText | assets/script.js:326 | the entry text starts with the key |
| Selection.RemoveKeyMembers | assets/script.js:320 | the filter keeps exactly the entries with another key |
| Selection.RemoveKeyOnly | assets/script.js:320 | with unique keys, the filter removes exactly the one matching entry |
| Selection.ToggleSpec | assets/script.js:313-333 | a click removes a present key and changes nothing else, or appends one manual entry `key + " " + engineer`; keys stay unique |
| Selection.ToggleTwice | assets/script.js:313-333 | clicking an unselected item twice restores the list, but the cursor stays advanced |
| Selection.AutoStepSpec | assets/script.js:342-350 | one auto-selection step appends at most one automatic entry, for that head, and leaves its key selected |
| Selection.AutoSelectedAppends | assets/script.js:337-351 | the auto-selection only appends automatic entries for heads, and keeps keys unique |
| Selection.AutoSelectedCovers | assets/script.js:337-351 | after the auto-selection every head's key is selected |
| Selection.Heads | assets/script.js:262 | the highlighted items are the first rows of the groups, in display order |
| Selection.GroupHead | assets/script.js:262 | a group's head is the earliest pasted row of that id among those with the latest (or earliest) date |
| Selection.Export | assets/script.js:412-423 | nothing is exported exactly when nothing is selected |
| Selection.ExportLines | assets/script.js:414-416 | the export is one line per entry, in list order, each the entry's text with its tags stripped |
| Selection.ExportDropsTag | assets/script.js:415 | an entry `key nombre (etiqueta)` exports as `key nombre` |
| Masivos.StoredRoundTrip | assets/script.js:216 | the stored direction reads back as the same direction |
| Masivos.PickEngineer | assets/script.js:288-306 | the imperative assignment returns the text and new cursor of `Engineers.AssignFrom` |
| Masivos.AssignFromRoster | assets/script.js:286-307 | `asignarIngeniero` reads the roster and then assigns as `Engineers.Assign` |
| Masivos.Session.constructor | assets/script.js:216-218 | start-up reads the stored direction (newest first when none), with an empty selection and cursor 0 |
| Masivos.Session.Edit | assets/script.js:384 | typing replaces the paste box and changes nothing else |
| Masivos.Session.AssignEngineer | assets/script.js:286-307 | an assignment advances `engineerIndex` as `Engineers.Assign` does and touches nothing else |
| Masivos.Session.Toggle | assets/script.js:313-333 | the click handler updates the selection and cursor as `Selection.Toggled`, keeps keys unique, and changes nothing else |
| Masivos.Session.SelectHead | assets/script.js:342-350 | one auto-selection turn is `Selection.AutoStep` |
| Masivos.Session.AutoSelectHeads | assets/script.js:337-351 | the auto-selection loop is `Selection.AutoSelected` over the heads in order |
| Masivos.Session.Render | assets/script.js:364-380 | the display lists every group once in ascending id order, then the heads are auto-selected |
| Masivos.Session.Process | assets/script.js:383-389 | Process parses, groups and sorts, resets the selection and cursor to empty and 0, then renders |
| Masivos.Session.Clear | assets/script.js:391-396 | Clear empties the paste box, the display and the selection and keeps the cursor |
| Masivos.Session.ToggleOrden | assets/script.js:398-410 | the order flips and is stored; with a non-blank paste box everything is re-processed, otherwise nothing else changes |
| Masivos.Session.Copy | assets/script.js:412-423 | Copy exports the selection as `Selection.Export` |
| Masivos.ProcessedSelection | assets/script.js:383-389 | after Process every entry is automatic and belongs to a displayed group head, every head's key is selected, and keys are unique: one automatic entry per distinct head key |
| Escalacion.Valores | assets/script.js:793-796 | the values are at least one, each trimmed |
| Escalacion.ValoresOfRow | assets/script.js:793-796 | a row written from plain values loads back as those values |
| Escalacion.LoadRow | assets/script.js:798-812 | values 0–6 fill the first seven fields, 7 and 8 the route, 10 the SD engineer; details and the TDC engineer are empty |
| Escalacion.NinthValueUnused | assets/script.js:798-812 | value 9 does not affect any field |
| Escalacion.NinthValueSkipped | assets/script.js:809-810 | changing column 9 of a pasted row changes nothing that is loaded |
| Escalacion.LeadingTabDropped | assets/script.js:793-796 | a leading tab is trimmed away before the split |
| Escalacion.TramosBoth | assets/script.js:806-807 | with both route columns present, the route field splits at `\|` back into the two columns |
| Escalacion.TramosOne | assets/script.js:808 | with at most one route column present, the route field is that column or empty |
| Escalacion.CopyServiceType | assets/script.js:845-848 | the copy button stops exactly when the ticket field is empty |
| Escalacion.ContainsTrim | assets/script.js:853-855 | trimming does not change whether a pattern without white space at its ends occurs |
| Escalacion.SpecialClientTrim | assets/script.js:853-865 | trimming the lower-cased client does not change whether it names a special client |
| Escalacion.KeywordInJoin | assets/script.js:857-859 | a keyword occurs in the joined lower-cased fields exactly when it occurs in one field |
| Escalacion.TipoServicioChain | assets/script.js:851-878 | the service type is the first of: special client, "accesos", "alarma", "proactivo", else the typed service |
| Escalacion.FieldOrderIrrelevant | assets/script.js:857-859 | fields holding the same values, in any order, give the same service type |

## Left out

- Everything the DOM does is left out: `innerHTML`, CSS classes, the colours of `actualizarSeleccionados` and the count display. The model keeps what the handlers compute and the state they change.
- The `agruparYMarcar` HTML string is not modelled, nor the `data-*` round trip. A `raw` holding `"` would break the attribute it is placed in, unescaped; the model passes the row through unchanged.
- `localStorage` is not modelled beyond the stored text itself. `Masivos.Session.ToggleOrden` returns the text it stores; the constructor takes what was stored.
- The clipboard, its promise and the alerts are not modelled. `Masivos.Session.Copy` returns the text (or `None` for the empty-selection alert).
- `Date.parse` is a parameter: its date-text grammar is not modelled.
- JavaScript numbers are not modelled. Timestamps are unbounded integers. The comparator only uses the sign of a difference, which rounding of the double cannot flip.
- Text.Lower: lowers ASCII and Latin-1 capitals and the Kelvin and Angstrom signs only. Every constant the core compares against is made of those characters, but other scripts' capitals stay as they are.
- Grouping.SortKeys: orders ids by code point. JavaScript's default `sort()` compares UTF-16 code units; the two orders differ only between characters above U+FFFF and characters in U+E000–U+FFFF.
- Selection.ComboBase: two rows whose `tik` or `id` contain `" | "` can share a key, as in the source. The model keeps that collision and does not analyse it.
- Masivos.Session.Process and Masivos.Session.ToggleOrden: both model the corrected grouping of the "## Findings" row below. As written, an id such as `constructor` makes `agruparYOrdenar` throw (assets/script.js:247-248) before the reset and the render. Process then changes nothing. ToggleOrden has already flipped and stored the direction (assets/script.js:399-400), while the selection, the cursor and the display stay as they were. The model's methods always complete the reset and the render.
- Selection.ExportLines: requires that no entry text holds a line break. No session invariant supplies this. The model does not prove that pasted cells and roster names never carry one into an entry, so `Masivos.Session.Copy` gives the export text without the one-line-per-entry guarantee.
- Masivos.Session.Toggle requires `Valid()`. The state every handler leaves satisfies it (each method ensures it), and only rendered items have click handlers.
- The Escalación form is modelled only as far as `mapeo` and the service type. Not modelled:
  - the write into the `[data-field]` elements and the case-insensitive option match for `SELECT`s;
  - the translations;
  - the formatted text built after the service type;
  - the clear button.
- `normalizarBandwidthCRM` is floating-point code and is not part of this model. The other modules of the page are not part of this model either: theme, Accesos, Ticket, Scripts, Manuales, Tipos de Reporte and the router.

## Findings

| source | as written | input that shows it | evidently intended | confidence | as-written member | corrected member |
|---|---|---|---|---|---|---|
| assets/script.js:244-248 | `agrupado` is a plain object `{}`, so `agrupado[id]` finds inherited `Object.prototype` members; for such an id no array is created and `.push` throws a `TypeError` | one pasted line `T1,constructor,2024-01-01` (also `toString`, `valueOf`, `__proto__`, …) | every id gets its own bucket (an object without prototype, or a `Map`) | not executed | Grouping.PrototypeIdsThrow | Grouping.GroupAndSort |
