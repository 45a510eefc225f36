/** The engineer roster of the Masivos module (`obtenerIngenieros`), the ticket classifier
    (`extraerEtiquetaTik`) and the assignment rule (`asignarIngeniero`) as functions of
    the roster text, the ticket line and the round-robin cursor `engineerIndex`. */
module Engineers {
  import opened Wrappers
  import opened Text

  /** A roster entry: `nombre` always starts with `@`; `etiqueta` is the category the
      engineer takes, `None` for a generalist. */
  datatype Engineer = Engineer(nombre: string, etiqueta: Option<string>)

  /** The roster is cut into lines at `\n` only. */
  const RosterBreaks: set<char> := {'\n'}

  /** A roster line is cut into name and tag at `|`. */
  const FieldBars: set<char> := {'|'}

  predicate StartsWithAt(s: string) {
    |s| >= 1 && s[0] == '@'
  }

  /** `name.startsWith('@') ? name : '@' + name`: exactly one `@` is added, and none
      when the name already has one. */
  function AtName(name: string): (r: string)
    ensures StartsWithAt(r)
    ensures r == name <==> StartsWithAt(name)
    ensures r != name ==> r == "@" + name
  {
    if StartsWithAt(name) then name else "@" + name
  }

  /** One roster line: the trimmed text before the first `|` is the name, the trimmed
      text between the first and the second `|` is the tag (`condicion || null`). */
  function ParseEngineer(line: string): (e: Engineer)
    ensures StartsWithAt(e.nombre)
    ensures e.etiqueta.Some? ==> e.etiqueta.value != [] && Trimmed(e.etiqueta.value)
  {
    var parts := Split(line, FieldBars);
    var name := Trim(parts[0]);
    var condicion := if |parts| > 1 then Trim(parts[1]) else "";
    Engineer(AtName(name), if condicion == "" then None else Some(condicion))
  }

  /** The roster lines `obtenerIngenieros` keeps: the text is trimmed, cut at `\n`, and
      blank lines are dropped. */
  function RosterLines(text: string): seq<string> {
    NonBlank(Split(Trim(text), RosterBreaks))
  }

  /** `obtenerIngenieros`: one engineer per kept roster line, in order. */
  function ParseEngineers(text: string): (engs: seq<Engineer>)
    ensures |engs| == |RosterLines(text)|
    ensures forall i :: 0 <= i < |engs| ==> engs[i] == ParseEngineer(RosterLines(text)[i])
  {
    var lines := RosterLines(text);
    seq(|lines|, i requires 0 <= i < |lines| => ParseEngineer(lines[i]))
  }

  /** There is one engineer per non-blank line of the roster text. */
  lemma OneEngineerPerNonBlankLine(text: string)
    ensures |ParseEngineers(text)| == |NonBlank(Split(text, RosterBreaks))|
  {
    NonBlankLinesOfTrim(text, RosterBreaks);
    assert |TrimEach(RosterLines(text))| == |TrimEach(NonBlank(Split(text, RosterBreaks)))|;
  }

  /** A name or a tag that survives the round trip: non-empty, trimmed, without `|` and
      without a line break. */
  predicate PlainField(s: string) {
    s != [] && Trimmed(s) && NoneOf(s, FieldBars + RosterBreaks)
  }

  predicate PlainEngineer(e: Engineer) {
    PlainField(e.nombre) && StartsWithAt(e.nombre) &&
    (e.etiqueta.Some? ==> PlainField(e.etiqueta.value))
  }

  function EngineerFields(e: Engineer): seq<string> {
    [e.nombre] + if e.etiqueta.Some? then [e.etiqueta.value] else []
  }

  /** A roster line written as `name|tag`, or `name` alone. */
  function FormatEngineer(e: Engineer): string {
    Join(EngineerFields(e), "|")
  }

  function RosterLinesOf(engs: seq<Engineer>): (lines: seq<string>)
    ensures |lines| == |engs| && forall i :: 0 <= i < |engs| ==> lines[i] == FormatEngineer(engs[i])
  {
    seq(|engs|, i requires 0 <= i < |engs| => FormatEngineer(engs[i]))
  }

  function FormatRoster(engs: seq<Engineer>): string {
    Join(RosterLinesOf(engs), "\n")
  }

  lemma {:induction false} FieldsNoneOf(fields: seq<string>, cs: set<char>)
    requires forall j :: 0 <= j < |fields| ==> PlainField(fields[j])
    requires cs <= FieldBars + RosterBreaks
    ensures forall j :: 0 <= j < |fields| ==> NoneOf(fields[j], cs)
  {
    forall j, k | 0 <= j < |fields| && 0 <= k < |fields[j]| ensures fields[j][k] !in cs {
      assert NoneOf(fields[j], FieldBars + RosterBreaks);
    }
  }

  lemma {:induction false} ParseFormattedEngineer(e: Engineer)
    requires PlainEngineer(e)
    ensures var line := FormatEngineer(e);
      line != [] && line[0] == '@' && Trimmed(line) && NoneOf(line, RosterBreaks)
    ensures ParseEngineer(FormatEngineer(e)) == e
  {
    var fields := EngineerFields(e);
    var line := FormatEngineer(e);
    assert forall j :: 0 <= j < |fields| ==> PlainField(fields[j]);
    assert line != [] && line[0] == '@' by {
      JoinEnds(fields, "|");
    }
    assert Trimmed(line) by {
      assert Trimmed("|");
      JoinTrimmed(fields, "|");
    }
    assert NoneOf(line, RosterBreaks) by {
      FieldsNoneOf(fields, RosterBreaks);
      assert NoneOf("|", RosterBreaks);
      JoinNoneOf(fields, "|", RosterBreaks);
    }
    assert Split(line, FieldBars) == fields by {
      FieldsNoneOf(fields, FieldBars);
      SplitJoin(fields, '|', FieldBars);
    }
    TrimOfTrimmed(e.nombre);
    if e.etiqueta.Some? {
      TrimOfTrimmed(e.etiqueta.value);
    }
  }

  /** Reading a written roster gives back its engineers. */
  lemma {:induction false} ParseFormatRoster(engs: seq<Engineer>)
    requires forall i :: 0 <= i < |engs| ==> PlainEngineer(engs[i])
    ensures ParseEngineers(FormatRoster(engs)) == engs
  {
    var lines := RosterLinesOf(engs);
    var text := FormatRoster(engs);
    forall i | 0 <= i < |lines|
      ensures lines[i] != [] && lines[i][0] == '@' && Trimmed(lines[i]) && NoneOf(lines[i], RosterBreaks)
      ensures ParseEngineer(lines[i]) == engs[i]
    {
      ParseFormattedEngineer(engs[i]);
    }
    assert RosterLines(text) == lines by {
      RosterLinesOfWritten(lines);
    }
  }

  lemma {:induction false} RosterLinesOfWritten(lines: seq<string>)
    requires forall i :: 0 <= i < |lines| ==>
      lines[i] != [] && lines[i][0] == '@' && Trimmed(lines[i]) && NoneOf(lines[i], RosterBreaks)
    ensures RosterLines(Join(lines, "\n")) == lines
  {
    var text := Join(lines, "\n");
    if |lines| == 0 {
      assert text == [];
      assert Split(Trim(text), RosterBreaks) == [[]];
    } else {
      assert Trim(text) == text by {
        JoinEnds(lines, "\n");
        assert text[0] == lines[0][0];
        var last := lines[|lines| - 1];
        assert text[|text| - 1] == last[|last| - 1];
        TrimOfTrimmed(text);
      }
      assert Split(text, RosterBreaks) == lines by {
        SplitJoin(lines, '\n', RosterBreaks);
      }
      forall i | 0 <= i < |lines| ensures Trim(lines[i]) != [] {
        TrimOfTrimmed(lines[i]);
      }
      NonBlankKeepsAll(lines);
    }
  }

  /** The three ticket categories, in the order `extraerEtiquetaTik` tries them. */
  const CaidaTotal: string := "Caída total"
  const Degradaciones: string := "Degradaciones"
  const SinServicio: string := "Sin servicio afectado"

  /** `/ca[ií]da total/i`, `/degradaci/i` and `/sin servicio afectado/i` on the lower-cased
      ticket line. */
  predicate SaysCaida(lowered: string) {
    Contains(lowered, "caida total") || Contains(lowered, "caída total")
  }

  predicate SaysDegradacion(lowered: string) {
    Contains(lowered, "degradaci")
  }

  predicate SaysSinServicio(lowered: string) {
    Contains(lowered, "sin servicio afectado")
  }

  /** `extraerEtiquetaTik`: the first category whose phrase occurs in the line, ignoring
      case. */
  function ExtractTag(texto: string): (r: Option<string>)
    ensures r.Some? ==> r.value in {CaidaTotal, Degradaciones, SinServicio}
    ensures r.None? <==> !SaysCaida(Lower(texto)) && !SaysDegradacion(Lower(texto)) && !SaysSinServicio(Lower(texto))
    ensures SaysCaida(Lower(texto)) ==> r == Some(CaidaTotal)
    ensures !SaysCaida(Lower(texto)) && SaysDegradacion(Lower(texto)) ==> r == Some(Degradaciones)
    ensures !SaysCaida(Lower(texto)) && !SaysDegradacion(Lower(texto)) && SaysSinServicio(Lower(texto)) ==>
      r == Some(SinServicio)
  {
    var t := Lower(texto);
    if SaysCaida(t) then Some(CaidaTotal)
    else if SaysDegradacion(t) then Some(Degradaciones)
    else if SaysSinServicio(t) then Some(SinServicio)
    else None
  }

  /** The position of a classification in the priority chain; 3 when there is none. */
  function Priority(tag: Option<string>): nat {
    if tag == Some(CaidaTotal) then 0
    else if tag == Some(Degradaciones) then 1
    else if tag == Some(SinServicio) then 2
    else 3
  }

  /** More text around a ticket line can only move it up the priority chain: a line that
      names a category keeps a category, of the same or a higher priority. */
  lemma {:induction false} ExtractTagMonotone(a: string, texto: string, b: string)
    ensures Priority(ExtractTag(a + texto + b)) <= Priority(ExtractTag(texto))
  {
    var t := Lower(texto);
    var big := Lower(a + texto + b);
    assert big == Lower(a) + t + Lower(b) by {
      LowerAppend(a + texto, b);
      LowerAppend(a, texto);
    }
    if Contains(t, "caida total") { ContainsWithin(Lower(a), t, Lower(b), "caida total"); }
    if Contains(t, "caída total") { ContainsWithin(Lower(a), t, Lower(b), "caída total"); }
    if Contains(t, "degradaci") { ContainsWithin(Lower(a), t, Lower(b), "degradaci"); }
    if Contains(t, "sin servicio afectado") { ContainsWithin(Lower(a), t, Lower(b), "sin servicio afectado"); }
  }

  /** `e.etiqueta && e.etiqueta.toLowerCase() === etiquetaTik.toLowerCase()`. */
  predicate TagIs(e: Engineer, cat: string) {
    e.etiqueta.Some? && Lower(e.etiqueta.value) == Lower(cat)
  }

  /** `engineers.find(...)`: the position of the first engineer tagged with `cat`. */
  function FindTagged(engs: seq<Engineer>, cat: string): (r: Option<nat>)
    ensures r.Some? ==> r.value < |engs| && TagIs(engs[r.value], cat)
    ensures r.Some? ==> forall j :: 0 <= j < r.value ==> !TagIs(engs[j], cat)
    ensures r.None? ==> forall j :: 0 <= j < |engs| ==> !TagIs(engs[j], cat)
    decreases |engs|
  {
    if engs == [] then None
    else if TagIs(engs[0], cat) then Some(0)
    else match FindTagged(engs[1..], cat)
      case None => None
      case Some(i) => Some(i + 1)
  }

  /** `engineers.filter(e => !e.etiqueta)`: the generalists, in roster order. */
  function Libres(engs: seq<Engineer>): (r: seq<Engineer>)
    ensures |r| <= |engs|
    decreases |engs|
  {
    if engs == [] then []
    else (if engs[0].etiqueta.None? then [engs[0]] else []) + Libres(engs[1..])
  }

  /** The generalists are exactly the roster members without a tag. */
  lemma {:induction false} LibresMembers(engs: seq<Engineer>)
    ensures forall e :: e in Libres(engs) <==> e in engs && e.etiqueta.None?
    decreases |engs|
  {
    if engs != [] {
      LibresMembers(engs[1..]);
      assert engs == [engs[0]] + engs[1..];
    }
  }

  /** How an engineer is shown: `nombre (etiqueta)`, or the name alone. */
  function Display(e: Engineer): string {
    if e.etiqueta.Some? then e.nombre + " (" + e.etiqueta.value + ")" else e.nombre
  }

  /** The engineer `engineers.find` picks for a ticket line, if its category is some
      engineer's tag. */
  function TaggedFor(engs: seq<Engineer>, raw: string): Option<nat> {
    match ExtractTag(raw)
    case None => None
    case Some(cat) => FindTagged(engs, cat)
  }

  /** The text an assignment produces and the cursor after it. */
  datatype Assignment = Assignment(text: string, cursor: nat)

  /** `asignarIngeniero` on a parsed roster, from cursor `cursor`. */
  function AssignFrom(engs: seq<Engineer>, raw: string, cursor: nat): (r: Assignment)
    ensures engs == [] ==> r == Assignment("@", cursor)
    ensures r.cursor == if engs == [] || TaggedFor(engs, raw).Some? then cursor else cursor + 1
    ensures engs != [] && TaggedFor(engs, raw).Some? ==>
      var i := TaggedFor(engs, raw).value; i < |engs| && r.text == Display(engs[i]) && engs[i].etiqueta.Some?
    ensures engs != [] && TaggedFor(engs, raw).None? ==> r.text == FallbackPick(engs, cursor)
  {
    if engs == [] then Assignment("@", cursor)
    else match TaggedFor(engs, raw)
      case Some(i) => Assignment(Display(engs[i]), cursor)
      case None => Assignment(FallbackPick(engs, cursor), cursor + 1)
  }

  /** The place whose turn it is at cursor `c` among `n` places: `c % n`, counted down
      by whole rounds. */
  function Turn(c: nat, n: nat): (r: nat)
    requires n > 0
    ensures r < n
    decreases c
  {
    if c < n then c else Turn(c - n, n)
  }

  /** `Turn` is the remainder the source computes with `%`. */
  lemma {:induction false} TurnIsMod(c: nat, n: nat)
    requires n > 0
    ensures Turn(c, n) == c % n
    decreases c
  {
    if c < n {
      DivModUnique(c, n, 0, c);
    } else {
      TurnIsMod(c - n, n);
      ModPeriod(c - n, n);
    }
  }

  /** The round-robin fallback at cursor `c`: generalist `c % |libres|` by name, or, with
      no generalist, roster member `c % n` shown with its tag when it has one. */
  function FallbackPick(engs: seq<Engineer>, c: nat): string
    requires engs != []
  {
    var libres := Libres(engs);
    if |libres| > 0 then libres[Turn(c, |libres|)].nombre else Display(engs[Turn(c, |engs|)])
  }

  /** Without generalists every engineer has a tag, so the full-roster fallback always
      shows `nombre (etiqueta)`: the bare-name alternative of that branch never happens. */
  lemma NoGeneralistAllTagged(engs: seq<Engineer>, c: nat)
    requires engs != [] && Libres(engs) == []
    ensures engs[Turn(c, |engs|)].etiqueta.Some?
    ensures var e := engs[Turn(c, |engs|)]; FallbackPick(engs, c) == e.nombre + " (" + e.etiqueta.value + ")"
  {
    LibresMembers(engs);
    assert engs[Turn(c, |engs|)] !in Libres(engs);
  }

  /** `asignarIngeniero(raw)` with the roster text in the box: the answer always starts
      with `@`, so it is never empty. */
  function Assign(rosterText: string, raw: string, cursor: nat): (r: Assignment)
    ensures StartsWithAt(r.text)
    ensures r.cursor == cursor || r.cursor == cursor + 1
  {
    var engs := ParseEngineers(rosterText);
    AssignFromAt(engs, raw, cursor);
    AssignFrom(engs, raw, cursor)
  }

  lemma AssignFromAt(engs: seq<Engineer>, raw: string, cursor: nat)
    requires forall i :: 0 <= i < |engs| ==> StartsWithAt(engs[i].nombre)
    ensures StartsWithAt(AssignFrom(engs, raw, cursor).text)
  {
    if engs != [] && TaggedFor(engs, raw).None? {
      var libres := Libres(engs);
      LibresMembers(engs);
      if |libres| > 0 {
        var e := libres[Turn(cursor, |libres|)];
        assert e in engs;
        var i :| 0 <= i < |engs| && engs[i] == e;
      } else {
        var e := engs[Turn(cursor, |engs|)];
        assert Display(e)[0] == e.nombre[0];
      }
    } else if engs != [] {
      var i := TaggedFor(engs, raw).value;
      assert Display(engs[i])[0] == engs[i].nombre[0];
    }
  }

  /** Assignments for several ticket lines in a row, the cursor carried from one to the
      next. */
  function AssignRun(engs: seq<Engineer>, raws: seq<string>, cursor: nat): (run: (seq<string>, nat))
    ensures |run.0| == |raws|
    decreases |raws|
  {
    if raws == [] then ([], cursor)
    else
      var a := AssignFrom(engs, raws[0], cursor);
      var rest := AssignRun(engs, raws[1..], a.cursor);
      ([a.text] + rest.0, rest.1)
  }

  /** The number of lines among `raws` that no tagged engineer takes. */
  function Fallbacks(engs: seq<Engineer>, raws: seq<string>): nat
    decreases |raws|
  {
    if raws == [] then 0
    else (if TaggedFor(engs, raws[0]).None? then 1 else 0) + Fallbacks(engs, raws[1..])
  }

  /** The cursor moves once per line that falls back to the round robin, and not at all
      with an empty roster. */
  lemma {:induction false} RunCursor(engs: seq<Engineer>, raws: seq<string>, cursor: nat)
    ensures AssignRun(engs, raws, cursor).1 == cursor + if engs == [] then 0 else Fallbacks(engs, raws)
    decreases |raws|
  {
    if raws != [] {
      RunCursor(engs, raws[1..], AssignFrom(engs, raws[0], cursor).cursor);
    }
  }

  /** Lines that no tagged engineer takes are handed out in turn: the `k`-th goes to
      `FallbackPick(engs, cursor + k)`, that is generalist `(cursor + k) % N` (or roster
      member `(cursor + k) % n` when there is no generalist). */
  lemma {:induction false} RoundRobin(engs: seq<Engineer>, raws: seq<string>, cursor: nat)
    requires engs != []
    requires forall k :: 0 <= k < |raws| ==> TaggedFor(engs, raws[k]).None?
    ensures AssignRun(engs, raws, cursor).0 == Picks(engs, cursor, |raws|)
    decreases |raws|
  {
    if raws != [] {
      UntaggedTail(engs, raws);
      RoundRobin(engs, raws[1..], cursor + 1);
      var rest := AssignRun(engs, raws[1..], cursor + 1).0;
      var run := FallbackRunHead(engs, raws, cursor, rest);
      PicksCons(engs, cursor, |raws|);
    }
  }

  /** The cursors of `m` turns in a row from `c`. */
  function Turns(c: nat, m: nat): (ts: seq<nat>)
    ensures |ts| == m
    decreases m
  {
    if m == 0 then [] else [c] + Turns(c + 1, m - 1)
  }

  lemma {:induction false} TurnsAt(c: nat, m: nat, k: nat)
    requires k < m
    ensures Turns(c, m)[k] == c + k
    decreases k
  {
    if k > 0 {
      TurnsAt(c + 1, m - 1, k - 1);
    }
  }

  /** The fallback pick at each of the cursors `ts`. */
  function PicksAtTurns(engs: seq<Engineer>, ts: seq<nat>): (p: seq<string>)
    requires engs != []
    ensures |p| == |ts| && forall i :: 0 <= i < |ts| ==> p[i] == FallbackPick(engs, ts[i])
  {
    seq(|ts|, i requires 0 <= i < |ts| => FallbackPick(engs, ts[i]))
  }

  /** The fallback picks of `m` turns in a row from cursor `c`. */
  function Picks(engs: seq<Engineer>, c: nat, m: nat): (p: seq<string>)
    requires engs != []
  {
    PicksAtTurns(engs, Turns(c, m))
  }

  lemma PicksCons(engs: seq<Engineer>, c: nat, m: nat)
    requires engs != [] && m > 0
    ensures Picks(engs, c, m) == [FallbackPick(engs, c)] + Picks(engs, c + 1, m - 1)
  {
    assert Turns(c, m) == [c] + Turns(c + 1, m - 1);
    PicksAtTurnsCons(engs, c, Turns(c + 1, m - 1));
  }

  lemma PicksAtTurnsCons(engs: seq<Engineer>, t: nat, ts: seq<nat>)
    requires engs != []
    ensures PicksAtTurns(engs, [t] + ts) == [FallbackPick(engs, t)] + PicksAtTurns(engs, ts)
  {
    var p := PicksAtTurns(engs, [t] + ts);
    var q := [FallbackPick(engs, t)] + PicksAtTurns(engs, ts);
    forall i | 0 <= i < |p| ensures p[i] == q[i] {
      if i > 0 {
        assert ([t] + ts)[i] == ts[i - 1];
      }
    }
  }

  /** Turn `k` of a run of fallback picks from cursor `c` is the pick at `c + k`. */
  lemma PicksAt(engs: seq<Engineer>, c: nat, m: nat, k: nat)
    requires engs != [] && k < m
    ensures Picks(engs, c, m)[k] == FallbackPick(engs, c + k)
  {
    TurnsAt(c, m, k);
  }

  lemma UntaggedTail(engs: seq<Engineer>, raws: seq<string>)
    requires raws != []
    requires forall k :: 0 <= k < |raws| ==> TaggedFor(engs, raws[k]).None?
    ensures forall k :: 0 <= k < |raws[1..]| ==> TaggedFor(engs, raws[1..][k]).None?
  {
    forall k | 0 <= k < |raws[1..]| ensures TaggedFor(engs, raws[1..][k]).None? {
      assert raws[1..][k] == raws[k + 1];
    }
  }

  /** A line no tagged engineer takes gets the fallback at the cursor, and the rest of
      the run starts one further on. */
  lemma FallbackRunHead(engs: seq<Engineer>, raws: seq<string>, cursor: nat, rest: seq<string>)
    returns (run: seq<string>)
    requires engs != [] && raws != [] && TaggedFor(engs, raws[0]).None?
    requires rest == AssignRun(engs, raws[1..], cursor + 1).0
    ensures run == AssignRun(engs, raws, cursor).0 && run == [FallbackPick(engs, cursor)] + rest
  {
    run := AssignRun(engs, raws, cursor).0;
  }

  /** The number of offsets `k < m` whose turn `(c + k) % n` is `j`. */
  function Hits(c: nat, m: nat, n: nat, j: nat): nat
    requires n > 0
    decreases m
  {
    if m == 0 then 0 else (if c % n == j then 1 else 0) + Hits(c + 1, m - 1, n, j)
  }

  lemma {:induction false} HitsSplit(c: nat, a: nat, b: nat, n: nat, j: nat)
    requires n > 0
    ensures Hits(c, a + b, n, j) == Hits(c, a, n, j) + Hits(c + a, b, n, j)
    decreases a
  {
    if a > 0 {
      HitsSplit(c + 1, a - 1, b, n, j);
      assert c + 1 + (a - 1) == c + a;
    }
  }

  lemma {:induction false} HitsSmall(c: nat, m: nat, n: nat, j: nat)
    requires n > 0 && c + m <= n
    ensures Hits(c, m, n, j) == if c <= j < c + m then 1 else 0
    decreases m
  {
    if m > 0 {
      assert c % n == c;
      HitsSmall(c + 1, m - 1, n, j);
    }
  }

  lemma {:induction false} HitsBlockStep(c: nat, n: nat, j: nat)
    requires n > 0
    ensures Hits(c + 1, n, n, j) == Hits(c, n, n, j)
  {
    HitsSplit(c + 1, n - 1, 1, n, j);
    assert c + 1 + (n - 1) == c + n;
    ModPeriod(c, n);
  }

  lemma ModPeriod(c: nat, n: nat)
    requires n > 0
    ensures (c + n) % n == c % n
  {
    DivModUnique(c + n, n, c / n + 1, c % n);
  }

  lemma MulAtLeast(n: int, d: int)
    requires n > 0
    ensures d >= 1 ==> n * d >= n
    ensures d <= -1 ==> n * d <= -n
  {
    if d >= 1 {
      assert n * d == n * (d - 1) + n;
    } else if d <= -1 {
      assert n * d == -(n * (-d - 1)) - n;
    }
  }

  /** Euclidean division has one quotient and one remainder. */
  lemma DivModUnique(x: int, n: int, q: int, r: int)
    requires n > 0 && 0 <= r < n && x == n * q + r
    ensures x / n == q && x % n == r
  {
    var q0 := x / n;
    var r0 := x % n;
    assert x == n * q0 + r0 && 0 <= r0 < n;
    MulAtLeast(n, q - q0);
    assert n * (q - q0) == r0 - r;
  }

  /** Any `n` consecutive turns give each of the `n` places exactly one turn. */
  lemma {:induction false} HitsBlock(c: nat, n: nat, j: nat)
    requires n > 0 && j < n
    ensures Hits(c, n, n, j) == 1
    decreases c
  {
    if c == 0 {
      HitsSmall(0, n, n, j);
    } else {
      HitsBlock(c - 1, n, j);
      HitsBlockStep(c - 1, n, j);
    }
  }

  /** Fairness of the round robin: over `m` consecutive turns from any cursor, each of `n`
      generalists is picked `m / n` times, or once more when `n` does not divide `m`. */
  lemma {:induction false} RoundRobinFair(c: nat, m: nat, n: nat, j: nat)
    requires n > 0 && j < n
    ensures Hits(c, m, n, j) == m / n || (m % n != 0 && Hits(c, m, n, j) == m / n + 1)
    decreases m
  {
    if m < n {
      HitsSplit(c, m, n - m, n, j);
      HitsBlock(c, n, j);
      DivModUnique(m, n, 0, m);
    } else {
      HitsSplit(c, n, m - n, n, j);
      HitsBlock(c, n, j);
      RoundRobinFair(c + n, m - n, n, j);
      DivModStep(m, n);
    }
  }

  lemma DivModStep(m: nat, n: nat)
    requires n > 0 && m >= n
    ensures (m - n) / n == m / n - 1 && (m - n) % n == m % n
  {
    DivModUnique(m, n, (m - n) / n + 1, (m - n) % n);
  }

  /** Line `k` of a run, when no tagged engineer takes it, gets the fallback pick at the
      cursor advanced once per earlier fallback line. Tagged lines in between do not
      move the cursor. */
  lemma AssignRunAt(engs: seq<Engineer>, raws: seq<string>, c: nat, k: nat)
    requires engs != [] && k < |raws| && TaggedFor(engs, raws[k]).None?
    ensures AssignRun(engs, raws, c).0[k] == FallbackPick(engs, c + Fallbacks(engs, raws[..k]))
  {
    var before := raws[..k];
    RunCursor(engs, before, c);
    var at := RunIndex(engs, raws, c, k);
    FallbackText(engs, raws[k], AssignRun(engs, before, c).1, c + Fallbacks(engs, before));
  }

  lemma FallbackText(engs: seq<Engineer>, raw: string, d: nat, e: nat)
    requires engs != [] && TaggedFor(engs, raw).None? && d == e
    ensures AssignFrom(engs, raw, d).text == FallbackPick(engs, e)
  {
  }

  /** Line `k` of a run is assigned from the cursor the first `k` lines leave behind. */
  lemma RunIndex(engs: seq<Engineer>, raws: seq<string>, c: nat, k: nat) returns (at: Assignment)
    requires k < |raws|
    ensures at == AssignFrom(engs, raws[k], AssignRun(engs, raws[..k], c).1)
    ensures AssignRun(engs, raws, c).0[k] == at.text
  {
    var before := raws[..k];
    var after := raws[k..];
    assert raws == before + after;
    RunAppend(engs, before, after, c);
    at := AssignFrom(engs, after[0], AssignRun(engs, before, c).1);
  }

  /** A run over two batches of lines is the run over the first followed by the run over
      the second, from the cursor the first leaves behind. */
  lemma {:induction false} RunAppend(engs: seq<Engineer>, a: seq<string>, b: seq<string>, c: nat)
    ensures AssignRun(engs, a + b, c).0 ==
      AssignRun(engs, a, c).0 + AssignRun(engs, b, AssignRun(engs, a, c).1).0
    decreases |a|
  {
    if a != [] {
      var step := AssignFrom(engs, a[0], c);
      assert (a + b)[0] == a[0] && (a + b)[1..] == a[1..] + b;
      RunAppend(engs, a[1..], b, step.cursor);
    } else {
      assert a + b == b;
    }
  }

  /** With at least one generalist, fallback line `k` of a run from cursor `c` goes to
      generalist `(c + f) % N`, where `f` counts the earlier fallback lines and `N` the
      generalists. */
  lemma FallbackGeneralist(engs: seq<Engineer>, raws: seq<string>, c: nat, k: nat)
    requires Libres(engs) != [] && k < |raws| && TaggedFor(engs, raws[k]).None?
    ensures var libres := Libres(engs);
      AssignRun(engs, raws, c).0[k] == libres[(c + Fallbacks(engs, raws[..k])) % |libres|].nombre
  {
    var t := c + Fallbacks(engs, raws[..k]);
    AssignRunAt(engs, raws, c, k);
    TurnIsMod(t, |Libres(engs)|);
  }

  /** The number of lines among the first `m` of a run from cursor `c` that fall back and
      go to generalist `j`. */
  function Served(engs: seq<Engineer>, raws: seq<string>, c: nat, j: nat, m: nat): nat
    requires Libres(engs) != [] && m <= |raws|
    decreases m
  {
    if m == 0 then 0
    else
      Served(engs, raws, c, j, m - 1) +
      if TaggedFor(engs, raws[m - 1]).None? && (c + Fallbacks(engs, raws[..m - 1])) % |Libres(engs)| == j
      then 1 else 0
  }

  lemma {:induction false} FallbacksAppend(a: seq<string>, b: seq<string>, engs: seq<Engineer>)
    ensures Fallbacks(engs, a + b) == Fallbacks(engs, a) + Fallbacks(engs, b)
    decreases |a|
  {
    if a == [] {
      assert a + b == b;
    } else {
      FallbacksAppend(a[1..], b, engs);
      assert (a + b)[1..] == a[1..] + b;
    }
  }

  lemma FallbacksSnoc(engs: seq<Engineer>, raws: seq<string>, m: nat)
    requires 0 < m <= |raws|
    ensures Fallbacks(engs, raws[..m]) ==
      Fallbacks(engs, raws[..m - 1]) + if TaggedFor(engs, raws[m - 1]).None? then 1 else 0
  {
    assert raws[..m] == raws[..m - 1] + [raws[m - 1]];
    FallbacksAppend(raws[..m - 1], [raws[m - 1]], engs);
    assert [raws[m - 1]][1..] == [];
  }

  lemma HitsSnoc(c: nat, f: nat, n: nat, j: nat)
    requires n > 0
    ensures Hits(c, f + 1, n, j) == Hits(c, f, n, j) + if (c + f) % n == j then 1 else 0
  {
    HitsSplit(c, f, 1, n, j);
    assert Hits(c + f + 1, 0, n, j) == 0;
  }

  /** The lines served by generalist `j` are the turns `j` gets among the fallback turns
      `c`, `c + 1`, ... of the run. */
  lemma {:induction false} ServedIsHits(engs: seq<Engineer>, raws: seq<string>, c: nat, j: nat, m: nat)
    requires Libres(engs) != [] && m <= |raws|
    ensures Served(engs, raws, c, j, m) == Hits(c, Fallbacks(engs, raws[..m]), |Libres(engs)|, j)
    decreases m
  {
    var n := |Libres(engs)|;
    if m == 0 {
      assert raws[..0] == [];
    } else {
      ServedIsHits(engs, raws, c, j, m - 1);
      var f := Fallbacks(engs, raws[..m - 1]);
      var h := Hits(c, f, n, j);
      FallbacksSnoc(engs, raws, m);
      if TaggedFor(engs, raws[m - 1]).None? {
        HitsSnoc(c, f, n, j);
      } else {
        assert Fallbacks(engs, raws[..m]) == f;
      }
    }
  }

  /** Round-robin fairness over the assignments themselves: over a run with `M` fallback
      lines, each generalist serves `M / N` of them, or one more when `N` does not divide
      `M`. Tagged lines do not disturb the rotation. */
  lemma FallbackFair(engs: seq<Engineer>, raws: seq<string>, c: nat, j: nat)
    requires Libres(engs) != [] && j < |Libres(engs)|
    ensures var m := Fallbacks(engs, raws);
      var n := |Libres(engs)|;
      var s := Served(engs, raws, c, j, |raws|);
      s == m / n || (m % n != 0 && s == m / n + 1)
  {
    ServedIsHits(engs, raws, c, j, |raws|);
    assert raws[..|raws|] == raws;
    RoundRobinFair(c, Fallbacks(engs, raws), |Libres(engs)|, j);
  }
}
