/** The Escalación form: the load button spreads one pasted spreadsheet row over the
    form fields by position (`mapeo`), and the copy button classifies the service type
    from the client name and the text of every field (`tipoServicio`). */
module Escalacion {
  import opened Wrappers
  import opened Text

  /** The load button cuts the pasted text at every tab, comma and line feed. */
  const ValueSeparators: set<char> := {'\t', ',', '\n'}

  /** `valores`: the trimmed text cut at the separators, every piece trimmed. */
  function Valores(input: string): (v: seq<string>)
    ensures |v| >= 1 && forall i :: 0 <= i < |v| ==> Trimmed(v[i])
  {
    TrimEach(Split(Trim(input), ValueSeparators))
  }

  /** `valores[i] || ""`. */
  function At(v: seq<string>, i: nat): string {
    if i < |v| then v[i] else ""
  }

  /** The route field: both route columns joined by `" | "`, or the one that is not
      empty, or `""`. */
  function Tramos(a: string, b: string): string {
    if a != "" && b != "" then a + " | " + b else if a != "" then a else b
  }

  /** The values the load button writes into the form fields. */
  datatype Mapeo = Mapeo(
    ticket: string, id: string, fecha: string, origen: string, cliente: string,
    servicio: string, problema: string, tramos: string, detalles: string,
    ingSd: string, ingTdc: string)

  /** `mapeo`: values 0 to 6 go to the first seven fields, values 7 and 8 make up the
      route field, value 9 is not used, value 10 is the SD engineer, and the details
      and TDC engineer fields are cleared. */
  function Mapping(v: seq<string>): Mapeo {
    Mapeo(At(v, 0), At(v, 1), At(v, 2), At(v, 3), At(v, 4), At(v, 5), At(v, 6),
      Tramos(At(v, 7), At(v, 8)), "", At(v, 10), "")
  }

  /** The load button: the pasted text cut into values and spread over the fields. */
  function Load(input: string): Mapeo {
    Mapping(Valores(input))
  }

  /** A value that survives the load: trimmed and free of separators. */
  predicate PlainValue(s: string) {
    Trimmed(s) && NoneOf(s, ValueSeparators)
  }

  lemma RowTrimmed(cells: seq<string>)
    requires |cells| >= 1 && forall i :: 0 <= i < |cells| ==> PlainValue(cells[i])
    ensures Trim(Join(cells, ",")) == Join(cells, ",")
  {
    JoinTrimmed(cells, ",");
    TrimOfTrimmed(Join(cells, ","));
  }

  lemma RowSplit(cells: seq<string>)
    requires |cells| >= 1 && forall i :: 0 <= i < |cells| ==> PlainValue(cells[i])
    ensures Split(Join(cells, ","), ValueSeparators) == cells
  {
    SplitJoin(cells, ',', ValueSeparators);
  }

  lemma TrimEachPlain(cells: seq<string>)
    requires forall i :: 0 <= i < |cells| ==> PlainValue(cells[i])
    ensures TrimEach(cells) == cells
  {
    forall i | 0 <= i < |cells| ensures Trim(cells[i]) == cells[i] {
      TrimOfTrimmed(cells[i]);
    }
  }

  /** Cutting a row of plain values written with commas gives the values back. */
  lemma ValoresOfRow(cells: seq<string>)
    requires |cells| >= 1 && forall i :: 0 <= i < |cells| ==> PlainValue(cells[i])
    ensures Valores(Join(cells, ",")) == cells
  {
    RowTrimmed(cells);
    RowSplit(cells);
    TrimEachPlain(cells);
  }

  /** Loading a row puts value `i` into field `i` for the first seven fields, combines
      values 7 and 8 into the route field and takes the SD engineer from value 10. */
  lemma LoadRow(cells: seq<string>)
    requires |cells| >= 1 && forall i :: 0 <= i < |cells| ==> PlainValue(cells[i])
    ensures var m := Load(Join(cells, ","));
      m.ticket == cells[0] && m.id == At(cells, 1) && m.fecha == At(cells, 2) &&
      m.origen == At(cells, 3) && m.cliente == At(cells, 4) && m.servicio == At(cells, 5) &&
      m.problema == At(cells, 6) && m.tramos == Tramos(At(cells, 7), At(cells, 8)) &&
      m.detalles == "" && m.ingSd == At(cells, 10) && m.ingTdc == ""
  {
    ValoresOfRow(cells);
  }

  /** Value 9 has no effect on the form. */
  lemma NinthValueUnused(v: seq<string>, x: string)
    requires |v| > 9
    ensures Mapping(v[9 := x]) == Mapping(v)
  {
    var w := v[9 := x];
    assert At(w, 10) == At(v, 10);
  }

  lemma PlainUpdate(cells: seq<string>, x: string, w: seq<string>)
    requires |cells| > 9 && PlainValue(x) && w == cells[9 := x]
    requires forall i :: 0 <= i < |cells| ==> PlainValue(cells[i])
    ensures forall i :: 0 <= i < |w| ==> PlainValue(w[i])
  {
  }

  /** In a pasted row, value 9 has no effect on the form. */
  lemma NinthValueSkipped(cells: seq<string>, x: string)
    requires |cells| > 9 && PlainValue(x)
    requires forall i :: 0 <= i < |cells| ==> PlainValue(cells[i])
    ensures Load(Join(cells[9 := x], ",")) == Load(Join(cells, ","))
  {
    PlainUpdate(cells, x, cells[9 := x]);
    ValoresOfRow(cells);
    ValoresOfRow(cells[9 := x]);
    NinthValueUnused(cells, x);
  }

  /** A row that starts with an empty cell loses it: the whole text is trimmed before it
      is cut, so every value moves one field to the left. */
  lemma LeadingTabDropped(s: string)
    ensures Load("\t" + s) == Load(s)
  {
    TrimPrependSpace('\t', s);
  }

  lemma PaddedNoBar(a: string, b: string)
    requires NoneOf(a, {'|'}) && NoneOf(b, {'|'})
    ensures NoneOf(a + " ", {'|'}) && NoneOf(" " + b, {'|'})
  {
    forall k | 0 <= k < |a + " "| ensures (a + " ")[k] != '|' {
      if k < |a| { assert (a + " ")[k] == a[k]; }
    }
    forall k | 0 <= k < |" " + b| ensures (" " + b)[k] != '|' {
      if k > 0 { assert (" " + b)[k] == b[k - 1]; }
    }
  }

  /** Both route columns present: cutting at `|` and trimming gives both back. */
  lemma TramosBoth(a: string, b: string)
    requires a != [] && b != []
    requires Trimmed(a) && Trimmed(b) && NoneOf(a, {'|'}) && NoneOf(b, {'|'})
    ensures TrimEach(Split(Tramos(a, b), {'|'})) == [a, b]
  {
    var parts := [a + " ", " " + b];
    assert Tramos(a, b) == Join(parts, "|");
    PaddedNoBar(a, b);
    SplitJoin(parts, '|', {'|'});
    TrimOfTrimmed(a);
    TrimOfTrimmed(b);
    TrimAppendSpace(a, ' ');
    TrimPrependSpace(' ', b);
  }

  /** At most one route column present: the field is that column, or empty. */
  lemma TramosOne(a: string, b: string)
    requires a == [] || b == []
    requires Trimmed(a) && Trimmed(b) && NoneOf(a, {'|'}) && NoneOf(b, {'|'})
    ensures TrimEach(Split(Tramos(a, b), {'|'})) == [if a != [] then a else b]
  {
    var x := if a != [] then a else b;
    assert Tramos(a, b) == x;
    SplitPiece(x, {'|'});
    TrimOfTrimmed(x);
  }

  const RedesYTelecomunicaciones: string := "redes y telecomunicaciones"
  const IfxNetworks: string := "ifx networks"

  /** `tipoServicio`: a special client name decides first; then the joined, lower-cased
      text of all fields is searched for "accesos", "alarma" and "proactivo" in that
      order; when nothing matches the typed service is kept. */
  function TipoServicio(servicio: string, cliente: string, valores: seq<string>): string {
    var clienteNormalizado := Trim(Lower(cliente));
    var textoGlobal := Lower(Join(valores, " "));
    if Contains(clienteNormalizado, RedesYTelecomunicaciones) || Contains(clienteNormalizado, IfxNetworks) then
      "Red Complementaria"
    else if Contains(textoGlobal, "accesos") then "Accesos"
    else if Contains(textoGlobal, "alarma") then "Alarma IFX"
    else if Contains(textoGlobal, "proactivo") then "Proactivo O&M"
    else servicio
  }

  /** The copy button: nothing (an alert) without a ticket number, otherwise the service
      type that goes into the formatted text. */
  function CopyServiceType(ticket: string, servicio: string, cliente: string, valores: seq<string>): (r: Option<string>)
    ensures r.None? <==> ticket == ""
  {
    if ticket == "" then None else Some(TipoServicio(servicio, cliente, valores))
  }

  /** The client name, in any case and with any surrounding white space, names a
      special client. */
  predicate SpecialClient(cliente: string) {
    Contains(Lower(cliente), RedesYTelecomunicaciones) || Contains(Lower(cliente), IfxNetworks)
  }

  /** Some field, lower-cased, contains the keyword. */
  predicate Mentions(valores: seq<string>, keyword: string) {
    exists i :: 0 <= i < |valores| && Contains(Lower(valores[i]), keyword)
  }

  /** An occurrence of a pattern with no white space at its ends, in a text surrounded
      by white space, lies inside the text. */
  lemma ContainsInside(pre: string, r: string, post: string, p: string)
    requires p != [] && Trimmed(p) && AllSpace(pre) && AllSpace(post)
    requires Contains(pre + r + post, p)
    ensures Contains(r, p)
  {
    var s := pre + r + post;
    var i := ContainsWitness(s, p);
    var a := |pre|;
    CharOfOccurrence(s, p, i, 0);
    CharOfOccurrence(s, p, i, |p| - 1);
    SpaceAt(pre, i);
    SpaceAt(post, i + |p| - 1 - a - |r|);
    assert a <= i;
    assert i + |p| <= a + |r|;
    assert s[a..a + |r|] == r;
    ContainsInPiece(s, a, a + |r|, p, i);
  }

  /** Trimming does not change whether a pattern with no white space at its ends
      occurs. */
  lemma ContainsTrim(s: string, p: string)
    requires p != [] && Trimmed(p)
    ensures Contains(Trim(s), p) <==> Contains(s, p)
  {
    var pre, post := TrimSurround(s);
    if Contains(Trim(s), p) {
      ContainsWithin(pre, Trim(s), post, p);
    }
    if Contains(s, p) {
      ContainsInside(pre, Trim(s), post, p);
    }
  }

  /** A keyword with no space in it occurs in the fields joined by spaces exactly when
      it occurs in one of the fields. */
  lemma {:induction false} KeywordInJoin(valores: seq<string>, keyword: string)
    requires keyword != [] && NoneOf(keyword, {' '})
    ensures Contains(Lower(Join(valores, " ")), keyword) <==> Mentions(valores, keyword)
    decreases |valores|
  {
    if valores == [] {
      assert Lower([]) == [];
      assert !Contains([], keyword);
    } else if |valores| > 1 {
      var rest := valores[1..];
      KeywordInJoin(rest, keyword);
      var j := Join(rest, " ");
      assert Join(valores, " ") == valores[0] + " " + j;
      LowerAppend(valores[0] + " ", j);
      LowerAppend(valores[0], " ");
      assert Lower(" ") == [' '];
      ContainsAcross(Lower(valores[0]), ' ', Lower(j), keyword);
      if Mentions(rest, keyword) {
        var i :| 0 <= i < |rest| && Contains(Lower(rest[i]), keyword);
        assert valores[i + 1] == rest[i];
      }
      if Mentions(valores, keyword) {
        var i :| 0 <= i < |valores| && Contains(Lower(valores[i]), keyword);
        if i > 0 {
          assert rest[i - 1] == valores[i];
        }
      }
    }
  }

  lemma SpecialNamesTrimmed()
    ensures RedesYTelecomunicaciones != [] && Trimmed(RedesYTelecomunicaciones)
    ensures IfxNetworks != [] && Trimmed(IfxNetworks)
  {
  }

  lemma KeywordsSpaceFree()
    ensures NoneOf("accesos", {' '}) && NoneOf("alarma", {' '}) && NoneOf("proactivo", {' '})
  {
  }

  /** Trimming the lower-cased client name does not change whether it names a special
      client. */
  lemma SpecialClientTrim(cliente: string)
    ensures (Contains(Trim(Lower(cliente)), RedesYTelecomunicaciones) ||
      Contains(Trim(Lower(cliente)), IfxNetworks)) == SpecialClient(cliente)
  {
    SpecialNamesTrimmed();
    ContainsTrim(Lower(cliente), RedesYTelecomunicaciones);
    ContainsTrim(Lower(cliente), IfxNetworks);
  }

  /** The classifier is the priority chain over the fields one by one: a special client
      first, then a field mentioning "accesos", then "alarma", then "proactivo", and the
      typed service when nothing matches. */
  lemma TipoServicioChain(servicio: string, cliente: string, valores: seq<string>)
    ensures TipoServicio(servicio, cliente, valores) ==
      if SpecialClient(cliente) then "Red Complementaria"
      else if Mentions(valores, "accesos") then "Accesos"
      else if Mentions(valores, "alarma") then "Alarma IFX"
      else if Mentions(valores, "proactivo") then "Proactivo O&M"
      else servicio
  {
    SpecialClientTrim(cliente);
    KeywordsSpaceFree();
    KeywordInJoin(valores, "accesos");
    KeywordInJoin(valores, "alarma");
    KeywordInJoin(valores, "proactivo");
  }

  /** Fields holding the same values mention the same keywords. */
  lemma MentionsSameValues(a: seq<string>, b: seq<string>, w: string)
    requires forall x :: x in a <==> x in b
    ensures Mentions(a, w) <==> Mentions(b, w)
  {
    if Mentions(a, w) {
      var i :| 0 <= i < |a| && Contains(Lower(a[i]), w);
      assert a[i] in b;
      var j :| 0 <= j < |b| && b[j] == a[i];
    }
    if Mentions(b, w) {
      var j :| 0 <= j < |b| && Contains(Lower(b[j]), w);
      assert b[j] in a;
      var i :| 0 <= i < |a| && a[i] == b[j];
    }
  }

  /** The order of the form fields does not matter: fields holding the same values give
      the same service type. */
  lemma FieldOrderIrrelevant(servicio: string, cliente: string, a: seq<string>, b: seq<string>)
    requires forall x :: x in a <==> x in b
    ensures TipoServicio(servicio, cliente, a) == TipoServicio(servicio, cliente, b)
  {
    TipoServicioChain(servicio, cliente, a);
    TipoServicioChain(servicio, cliente, b);
    MentionsSameValues(a, b, "accesos");
    MentionsSameValues(a, b, "alarma");
    MentionsSameValues(a, b, "proactivo");
  }
}
