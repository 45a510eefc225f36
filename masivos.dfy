/** The Masivos screen (`initMasivos`): the state its event handlers share — the sort
    direction `ordenDesc`, the selection list `seleccionados`, the round-robin cursor
    `engineerIndex`, the text box `dataInput` and the groups on display — and the
    handlers that update it, each proved against the functions of `Selection`,
    `Grouping` and `Engineers`. */
module Masivos {
  import opened Wrappers
  import opened Text
  import opened Records
  import opened Sorting
  import opened Grouping
  import opened Engineers
  import opened Selection

  /** The text `localStorage` keeps for the sort direction: `String(ordenDesc)`. */
  function Stored(desc: bool): (s: string)
    ensures s == "true" || s == "false"
  {
    if desc then "true" else "false"
  }

  /** The direction read back at start-up: newest first unless `"false"` (or anything but
      `"true"`) was stored. */
  function StoredDesc(stored: Option<string>): bool {
    stored.None? || stored == Some("true")
  }

  /** What is stored is read back as the same direction. */
  lemma StoredRoundTrip(desc: bool)
    ensures StoredDesc(Some(Stored(desc))) == desc
  {
  }

  /** The body of `asignarIngeniero` on a parsed roster: `"@"` for an empty roster; the
      first engineer tagged with the line's category, cursor untouched; otherwise the next
      generalist, or with no generalist the next roster member, cursor advanced. */
  method PickEngineer(engineers: seq<Engineer>, raw: string, cursor: nat) returns (eng: string, next: nat)
    ensures Assignment(eng, next) == AssignFrom(engineers, raw, cursor)
  {
    next := cursor;
    if |engineers| == 0 {
      return "@", next;
    }
    var etiquetaTik := ExtractTag(raw);
    if etiquetaTik.Some? {
      var found := FindTagged(engineers, etiquetaTik.value);
      if found.Some? {
        return Display(engineers[found.value]), next;
      }
    }
    var libres := Libres(engineers);
    if |libres| > 0 {
      TurnIsMod(next, |libres|);
      eng := libres[next % |libres|].nombre;
      next := next + 1;
      return;
    }
    TurnIsMod(next, |engineers|);
    var e := engineers[next % |engineers|];
    next := next + 1;
    eng := Display(e);
  }

  /** `asignarIngeniero`: reads the roster, then assigns. */
  method AssignFromRoster(roster: string, raw: string, cursor: nat) returns (eng: string, next: nat)
    ensures Assignment(eng, next) == Assign(roster, raw, cursor)
  {
    var engineers := ParseEngineers(roster);
    eng, next := PickEngineer(engineers, raw, cursor);
  }

  class Session {
    /** The sort direction: `true` shows the newest date first. */
    var ordenDesc: bool
    /** The selected tickets, in the order they were selected. */
    var seleccionados: seq<Entry>
    /** The round-robin cursor of `asignarIngeniero`. */
    var engineerIndex: nat
    /** The text box holding the pasted rows. */
    var input: string
    /** The groups on display, by id. */
    var groups: map<string, seq<Row>>
    /** The ids of the groups on display, in display order. */
    var order: seq<string>

    /** The display lists every group once, in ascending id order, no group is empty,
        and no ticket is selected twice. */
    ghost predicate Valid()
      reads this
    {
      StrictlySorted(order) && (forall k :: k in order <==> k in groups) &&
      (forall k :: k in groups ==> groups[k] != []) &&
      UniqueKeys(seleccionados)
    }

    /** The state after the text box was processed: the groups of its rows in the
        current direction, their ids in ascending order, and a fresh selection made of
        the auto-selected heads, assigned from cursor 0. */
    ghost predicate Rendered(roster: string, dateParse: DateParser)
      reads this
    {
      groups == Grouped(ParseExcelText(input), ordenDesc, dateParse) &&
      StrictlySorted(order) && (forall k :: k in order <==> k in groups) &&
      (forall k :: k in groups ==> groups[k] != []) &&
      var t := AutoSelected(SelectionState([], 0), Heads(groups, order), roster);
      seleccionados == t.entries && engineerIndex == t.cursor
    }

    /** Start-up: the direction comes from the stored text (`null` when nothing was
        stored); everything else is empty. */
    constructor(stored: Option<string>)
      ensures ordenDesc == StoredDesc(stored)
      ensures seleccionados == [] && engineerIndex == 0 && input == []
      ensures groups == map[] && order == []
      ensures Valid()
    {
      ordenDesc := stored == None || stored == Some("true");
      seleccionados := [];
      engineerIndex := 0;
      input := [];
      groups := map[];
      order := [];
    }

    /** The user replaces the contents of the text box. */
    method Edit(text: string)
      modifies this
      ensures input == text
      ensures seleccionados == old(seleccionados) && engineerIndex == old(engineerIndex)
      ensures groups == old(groups) && order == old(order) && ordenDesc == old(ordenDesc)
    {
      input := text;
    }

    /** `asignarIngeniero`: reads the roster and assigns from the current cursor. */
    method AssignEngineer(roster: string, raw: string) returns (eng: string)
      modifies this
      ensures var a := Assign(roster, raw, old(engineerIndex));
        eng == a.text && engineerIndex == a.cursor
      ensures unchanged(this`seleccionados, this`input, this`groups, this`order, this`ordenDesc)
    {
      var next;
      eng, next := AssignFromRoster(roster, raw, engineerIndex);
      engineerIndex := next;
    }

    /** The click handler of a displayed ticket: deselect it, or select it with an
        assigned engineer. */
    method Toggle(row: Row, roster: string)
      requires Valid()
      modifies this
      ensures Valid()
      ensures var t := Toggled(SelectionState(old(seleccionados), old(engineerIndex)), row, roster);
        seleccionados == t.entries && engineerIndex == t.cursor
      ensures groups == old(groups) && order == old(order) && ordenDesc == old(ordenDesc) && input == old(input)
    {
      var base := ComboBase(row);
      ToggleSpec(SelectionState(seleccionados, engineerIndex), row, roster);
      if HasKey(seleccionados, base) {
        seleccionados := RemoveKey(seleccionados, base);
      } else {
        var eng := AssignEngineer(roster, row.raw);
        seleccionados := seleccionados + [Entry(base, EntryText(base, eng), false)];
      }
    }

    /** One turn of the auto-selection loop: a highlighted ticket that is not selected
        yet is selected automatically, with an assigned engineer. */
    method SelectHead(h: Row, roster: string)
      requires UniqueKeys(seleccionados)
      modifies this
      ensures SelectionState(seleccionados, engineerIndex) ==
        AutoStep(SelectionState(old(seleccionados), old(engineerIndex)), h, roster)
      ensures UniqueKeys(seleccionados)
      ensures unchanged(this`input, this`groups, this`order, this`ordenDesc)
    {
      var base := ComboBase(h);
      AutoStepSpec(SelectionState(seleccionados, engineerIndex), h, roster);
      if !HasKey(seleccionados, base) {
        var eng := AssignEngineer(roster, h.raw);
        seleccionados := seleccionados + [Entry(base, EntryText(base, eng), true)];
      }
    }

    /** The auto-selection loop over the highlighted tickets, in display order. */
    method AutoSelectHeads(heads: seq<Row>, roster: string)
      requires UniqueKeys(seleccionados)
      modifies this
      ensures var t := AutoSelected(SelectionState(old(seleccionados), old(engineerIndex)), heads, roster);
        seleccionados == t.entries && engineerIndex == t.cursor
      ensures UniqueKeys(seleccionados)
      ensures unchanged(this`input, this`groups, this`order, this`ordenDesc)
    {
      ghost var target := AutoSelected(SelectionState(seleccionados, engineerIndex), heads, roster);
      var i := 0;
      while i < |heads|
        invariant 0 <= i <= |heads|
        invariant AutoSelected(SelectionState(seleccionados, engineerIndex), heads[i..], roster) == target
        invariant UniqueKeys(seleccionados)
        invariant unchanged(this`input, this`groups, this`order, this`ordenDesc)
      {
        SelectHead(heads[i], roster);
        assert heads[i..][1..] == heads[i + 1..];
        i := i + 1;
      }
      assert heads[i..] == [];
    }

    /** `renderSalida`: display the groups in ascending id order and auto-select their
        heads; with no group there is nothing to display and nothing is selected. */
    method Render(agrupado: map<string, seq<Row>>, roster: string)
      requires UniqueKeys(seleccionados)
      requires forall k :: k in agrupado ==> agrupado[k] != []
      modifies this
      ensures groups == agrupado && StrictlySorted(order) && (forall k :: k in order <==> k in agrupado)
      ensures var t := AutoSelected(SelectionState(old(seleccionados), old(engineerIndex)), Heads(agrupado, order), roster);
        seleccionados == t.entries && engineerIndex == t.cursor
      ensures Valid()
      ensures ordenDesc == old(ordenDesc) && input == old(input)
    {
      var keys := SortKeys(agrupado.Keys);
      groups := agrupado;
      order := keys;
      if |keys| == 0 {
        return;
      }
      AutoSelectHeads(Heads(agrupado, keys), roster);
    }

    /** The process button: parse the text box, group and sort, start a fresh selection
        with the cursor at 0, and render. */
    method Process(roster: string, dateParse: DateParser)
      modifies this
      ensures Rendered(roster, dateParse) && Valid()
      ensures ordenDesc == old(ordenDesc) && input == old(input)
    {
      var registros := ParseExcelText(input);
      var agrupado := GroupAndSort(registros, ordenDesc, dateParse);
      seleccionados := [];
      engineerIndex := 0;
      GroupedPartition(registros, ordenDesc, dateParse);
      Render(agrupado, roster);
    }

    /** The clear button: empties the text box, the display and the selection; the
        round-robin cursor keeps its value. */
    method Clear()
      modifies this
      ensures input == [] && seleccionados == [] && groups == map[] && order == []
      ensures engineerIndex == old(engineerIndex) && ordenDesc == old(ordenDesc)
      ensures Valid()
    {
      input := [];
      groups := map[];
      order := [];
      seleccionados := [];
    }

    /** The order button: flips the direction, returns the text to store, and reprocesses
        the text box when it is not blank. */
    method ToggleOrden(roster: string, dateParse: DateParser) returns (stored: string)
      requires Valid()
      modifies this
      ensures ordenDesc == !old(ordenDesc) && input == old(input)
      ensures stored == Stored(ordenDesc)
      ensures Trim(input) == [] ==>
        seleccionados == old(seleccionados) && engineerIndex == old(engineerIndex) &&
        groups == old(groups) && order == old(order)
      ensures Trim(input) != [] ==> Rendered(roster, dateParse)
      ensures Valid()
    {
      ordenDesc := !ordenDesc;
      stored := Stored(ordenDesc);
      if Trim(input) != [] {
        Process(roster, dateParse);
      }
    }

    /** The copy button: the selection without tags, one line per ticket, or nothing
        (an alert) when the selection is empty. */
    method Copy() returns (text: Option<string>)
      ensures text == Export(seleccionados)
    {
      text := Export(seleccionados);
    }
  }

  /** After processing, the selection is exactly one automatic entry per displayed group
      whose key is new, each the key of a group head; every group head is selected. */
  lemma ProcessedSelection(groups: map<string, seq<Row>>, order: seq<string>, roster: string)
    requires forall k :: k in order ==> k in groups && groups[k] != []
    ensures var t := AutoSelected(SelectionState([], 0), Heads(groups, order), roster);
      UniqueKeys(t.entries) &&
      (forall i :: 0 <= i < |t.entries| ==>
        t.entries[i].auto && exists j :: 0 <= j < |order| && t.entries[i].base == ComboBase(groups[order[j]][0])) &&
      (forall j :: 0 <= j < |order| ==> HasKey(t.entries, ComboBase(groups[order[j]][0])))
  {
    var heads := Heads(groups, order);
    var s := SelectionState([], 0);
    AutoSelectedAppends(s, heads, roster);
    AutoSelectedCovers(s, heads, roster);
    var t := AutoSelected(s, heads, roster);
    forall i | 0 <= i < |t.entries|
      ensures exists j :: 0 <= j < |order| && t.entries[i].base == ComboBase(groups[order[j]][0])
    {
      var h :| h in heads && t.entries[i].base == ComboBase(h);
      var j :| 0 <= j < |heads| && heads[j] == h;
    }
    forall j | 0 <= j < |order| ensures HasKey(t.entries, ComboBase(groups[order[j]][0])) {
      assert heads[j] in heads;
    }
  }
}
