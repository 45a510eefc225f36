/** The selection list `seleccionados` of the Masivos module: entries keyed by
    `"tik | id"`, the click toggle and the auto-selection of group heads in
    `activarClickMover`, and the text the copy button exports. The functions here are the
    specification the `Session` class is proved against. */
module Selection {
  import opened Wrappers
  import opened Text
  import opened Records
  import opened Sorting
  import opened Grouping
  import opened Engineers
  import opened Tags

  /** One selected ticket: its key `base`, the text shown and copied, and whether the
      auto-selection (rather than a click) added it. */
  datatype Entry = Entry(base: string, text: string, auto: bool)

  /** `comboBase`: `${tik} | ${id}`. */
  function ComboBase(r: Row): string {
    r.tik + " | " + r.id
  }

  /** `eng ? comboBase + " " + eng : comboBase`. */
  function EntryText(base: string, eng: string): (t: string)
    ensures base <= t
  {
    if eng != "" then base + " " + eng else base
  }

  /** `seleccionados.find(x => x.base === base)` finds an entry. */
  predicate HasKey(entries: seq<Entry>, base: string) {
    exists i :: 0 <= i < |entries| && entries[i].base == base
  }

  /** `seleccionados.filter(x => x.base !== base)`. */
  function RemoveKey(entries: seq<Entry>, base: string): (r: seq<Entry>)
    ensures |r| <= |entries|
    decreases |entries|
  {
    if entries == [] then []
    else (if entries[0].base == base then [] else [entries[0]]) + RemoveKey(entries[1..], base)
  }

  /** The filter keeps exactly the entries with another key. */
  lemma {:induction false} RemoveKeyMembers(entries: seq<Entry>, base: string)
    ensures forall e :: e in RemoveKey(entries, base) <==> e in entries && e.base != base
    decreases |entries|
  {
    if entries != [] {
      RemoveKeyMembers(entries[1..], base);
      assert entries == [entries[0]] + entries[1..];
    }
  }

  /** No key is selected twice. */
  ghost predicate UniqueKeys(entries: seq<Entry>) {
    forall i, j :: 0 <= i < j < |entries| ==> entries[i].base != entries[j].base
  }

  /** The selection list together with the round-robin cursor `engineerIndex`, which
      the same clicks advance. */
  datatype SelectionState = SelectionState(entries: seq<Entry>, cursor: nat)

  /** A click on the item of `row`: a selected key is removed; otherwise an engineer is
      assigned and a manual entry is appended. */
  function Toggled(s: SelectionState, row: Row, roster: string): SelectionState {
    var base := ComboBase(row);
    if HasKey(s.entries, base) then SelectionState(RemoveKey(s.entries, base), s.cursor)
    else
      var a := Assign(roster, row.raw, s.cursor);
      SelectionState(s.entries + [Entry(base, EntryText(base, a.text), false)], a.cursor)
  }

  lemma {:induction false} RemoveKeyOnly(entries: seq<Entry>, base: string, i: nat)
    requires i < |entries| && entries[i].base == base
    requires forall j :: 0 <= j < |entries| && j != i ==> entries[j].base != base
    ensures RemoveKey(entries, base) == entries[..i] + entries[i + 1..]
    decreases |entries|
  {
    if i > 0 {
      forall j | 0 <= j < |entries[1..]| && j != i - 1 ensures entries[1..][j].base != base {
        assert entries[1..][j] == entries[j + 1];
      }
      RemoveKeyOnly(entries[1..], base, i - 1);
      assert entries[1..][..i - 1] + entries[1..][i..] == entries[1..i] + entries[i + 1..];
      assert entries[..i] == [entries[0]] + entries[1..i];
    } else {
      RemoveKeyAbsent(entries[1..], base);
    }
  }

  lemma {:induction false} RemoveKeyAbsent(entries: seq<Entry>, base: string)
    requires forall j :: 0 <= j < |entries| ==> entries[j].base != base
    ensures RemoveKey(entries, base) == entries
    decreases |entries|
  {
    if entries != [] {
      RemoveKeyAbsent(entries[1..], base);
    }
  }

  lemma {:induction false} UniqueAppend(entries: seq<Entry>, e: Entry)
    requires UniqueKeys(entries) && !HasKey(entries, e.base)
    ensures UniqueKeys(entries + [e])
  {
    var r := entries + [e];
    forall i, j | 0 <= i < j < |r| ensures r[i].base != r[j].base {
      if j == |entries| {
        assert r[i] == entries[i];
      } else {
        assert r[i] == entries[i] && r[j] == entries[j];
      }
    }
  }

  lemma RemoveAtUnique(entries: seq<Entry>, i: nat)
    requires UniqueKeys(entries) && i < |entries|
    ensures UniqueKeys(entries[..i] + entries[i + 1..])
  {
    var r := entries[..i] + entries[i + 1..];
    forall a, b | 0 <= a < b < |r| ensures r[a].base != r[b].base {
      var a' := if a < i then a else a + 1;
      var b' := if b < i then b else b + 1;
      assert r[a] == entries[a'] && r[b] == entries[b'];
    }
  }

  /** Clicking a selected item removes exactly its entry; the cursor stays. */
  lemma ToggleRemoves(s: SelectionState, row: Row, roster: string)
    requires UniqueKeys(s.entries) && HasKey(s.entries, ComboBase(row))
    ensures var t := Toggled(s, row, roster);
      UniqueKeys(t.entries) && t.cursor == s.cursor &&
      exists i :: 0 <= i < |s.entries| && s.entries[i].base == ComboBase(row) &&
        t.entries == s.entries[..i] + s.entries[i + 1..]
  {
    var base := ComboBase(row);
    var i :| 0 <= i < |s.entries| && s.entries[i].base == base;
    RemoveKeyOnly(s.entries, base, i);
    RemoveAtUnique(s.entries, i);
  }

  /** Clicking an unselected item appends one manual entry whose text is the key, a space
      and the assigned engineer (the engineer part is never empty). */
  lemma ToggleAppends(s: SelectionState, row: Row, roster: string)
    requires UniqueKeys(s.entries) && !HasKey(s.entries, ComboBase(row))
    ensures var t := Toggled(s, row, roster);
      var a := Assign(roster, row.raw, s.cursor);
      UniqueKeys(t.entries) &&
      t == SelectionState(s.entries + [Entry(ComboBase(row), ComboBase(row) + " " + a.text, false)], a.cursor)
  {
    var base := ComboBase(row);
    UniqueAppend(s.entries, Entry(base, EntryText(base, Assign(roster, row.raw, s.cursor).text), false));
  }

  /** Clicking a selected item removes exactly its entry and changes nothing else; clicking
      an unselected one appends one manual entry whose text is the key, a space and the
      assigned engineer. The keys stay unique. */
  lemma ToggleSpec(s: SelectionState, row: Row, roster: string)
    requires UniqueKeys(s.entries)
    ensures var t := Toggled(s, row, roster);
      UniqueKeys(t.entries) &&
      (HasKey(s.entries, ComboBase(row)) ==>
        t.cursor == s.cursor &&
        exists i :: 0 <= i < |s.entries| && s.entries[i].base == ComboBase(row) &&
          t.entries == s.entries[..i] + s.entries[i + 1..]) &&
      (!HasKey(s.entries, ComboBase(row)) ==>
        var a := Assign(roster, row.raw, s.cursor);
        t == SelectionState(s.entries + [Entry(ComboBase(row), ComboBase(row) + " " + a.text, false)], a.cursor))
  {
    if HasKey(s.entries, ComboBase(row)) {
      ToggleRemoves(s, row, roster);
    } else {
      ToggleAppends(s, row, roster);
    }
  }

  /** Clicking an unselected item twice leaves the list as it was; only the cursor has
      moved on. */
  lemma ToggleTwice(s: SelectionState, row: Row, roster: string)
    requires !HasKey(s.entries, ComboBase(row))
    ensures Toggled(Toggled(s, row, roster), row, roster).entries == s.entries
    ensures Toggled(Toggled(s, row, roster), row, roster).cursor == Toggled(s, row, roster).cursor
  {
    var base := ComboBase(row);
    var t := Toggled(s, row, roster);
    var e := Entry(base, EntryText(base, Assign(roster, row.raw, s.cursor).text), false);
    assert t.entries == s.entries + [e];
    assert HasKey(t.entries, base) by {
      assert t.entries[|s.entries|] == e;
    }
    RemoveKeyOnly(t.entries, base, |s.entries|);
    assert t.entries[..|s.entries|] == s.entries;
  }

  /** One step of the auto-selection: a head whose key is not selected yet gets an
      engineer and an automatic entry. */
  function AutoStep(s: SelectionState, head: Row, roster: string): SelectionState {
    var base := ComboBase(head);
    if HasKey(s.entries, base) then s
    else
      var a := Assign(roster, head.raw, s.cursor);
      SelectionState(s.entries + [Entry(base, EntryText(base, a.text), true)], a.cursor)
  }

  /** The auto-selection over the highlighted items, in document order. */
  function AutoSelected(s: SelectionState, heads: seq<Row>, roster: string): SelectionState
    decreases |heads|
  {
    if heads == [] then s else AutoSelected(AutoStep(s, heads[0], roster), heads[1..], roster)
  }

  /** One step appends at most one automatic entry, for the head's key, and leaves that
      key selected. */
  lemma AutoStepSpec(s: SelectionState, h: Row, roster: string)
    requires UniqueKeys(s.entries)
    ensures var s1 := AutoStep(s, h, roster);
      s.entries <= s1.entries && UniqueKeys(s1.entries) && HasKey(s1.entries, ComboBase(h)) &&
      forall i :: |s.entries| <= i < |s1.entries| ==> s1.entries[i].auto && s1.entries[i].base == ComboBase(h)
  {
    if !HasKey(s.entries, ComboBase(h)) {
      var e := Entry(ComboBase(h), EntryText(ComboBase(h), Assign(roster, h.raw, s.cursor).text), true);
      UniqueAppend(s.entries, e);
      assert AutoStep(s, h, roster).entries[|s.entries|] == e;
    }
  }

  lemma HasKeyPrefix(a: seq<Entry>, b: seq<Entry>, base: string)
    requires a <= b
    ensures HasKey(a, base) ==> HasKey(b, base)
  {
    if HasKey(a, base) {
      var i :| 0 <= i < |a| && a[i].base == base;
      assert b[i] == a[i];
    }
  }

  /** The auto-selection only appends: the entries already there stay in place, every
      appended entry is automatic and belongs to a head, and no key is selected twice. */
  lemma {:induction false} AutoSelectedAppends(s: SelectionState, heads: seq<Row>, roster: string)
    requires UniqueKeys(s.entries)
    ensures var t := AutoSelected(s, heads, roster);
      s.entries <= t.entries && UniqueKeys(t.entries) &&
      forall i :: |s.entries| <= i < |t.entries| ==>
        t.entries[i].auto && exists h :: h in heads && t.entries[i].base == ComboBase(h)
    decreases |heads|
  {
    if heads != [] {
      var h := heads[0];
      var s1 := AutoStep(s, h, roster);
      AutoStepSpec(s, h, roster);
      AutoSelectedAppends(s1, heads[1..], roster);
      AppendedByHeads(s.entries, s1.entries, AutoSelected(s1, heads[1..], roster).entries, heads);
    }
  }

  lemma AppendedByHeads(a: seq<Entry>, b: seq<Entry>, c: seq<Entry>, heads: seq<Row>)
    requires heads != [] && a <= b <= c
    requires forall i :: |a| <= i < |b| ==> b[i].auto && b[i].base == ComboBase(heads[0])
    requires forall i :: |b| <= i < |c| ==>
      c[i].auto && exists h :: h in heads[1..] && c[i].base == ComboBase(h)
    ensures forall i :: |a| <= i < |c| ==> c[i].auto && exists h :: h in heads && c[i].base == ComboBase(h)
  {
    forall i | |a| <= i < |c| ensures c[i].auto && exists h :: h in heads && c[i].base == ComboBase(h) {
      if i < |b| {
        assert c[i] == b[i];
        assert heads[0] in heads;
      } else {
        assert exists h :: h in heads[1..] && c[i].base == ComboBase(h);
        var h :| h in heads[1..] && c[i].base == ComboBase(h);
        assert h in heads;
      }
    }
  }

  /** After the auto-selection every highlighted item is selected. */
  lemma {:induction false} AutoSelectedCovers(s: SelectionState, heads: seq<Row>, roster: string)
    requires UniqueKeys(s.entries)
    ensures forall h :: h in heads ==> HasKey(AutoSelected(s, heads, roster).entries, ComboBase(h))
    decreases |heads|
  {
    if heads != [] {
      var h := heads[0];
      var s1 := AutoStep(s, h, roster);
      AutoStepSpec(s, h, roster);
      AutoSelectedCovers(s1, heads[1..], roster);
      AutoSelectedAppends(s1, heads[1..], roster);
      var t := AutoSelected(s1, heads[1..], roster);
      HasKeyPrefix(s1.entries, t.entries, ComboBase(h));
      forall h' | h' in heads ensures HasKey(t.entries, ComboBase(h')) {
        if h' != h {
          assert h' in heads[1..];
        }
      }
    }
  }

  /** The highlighted items: the first row of every group, in the order of the keys
      (`agruparYMarcar` marks index 0 as `destacado`). */
  function Heads(groups: map<string, seq<Row>>, order: seq<string>): (heads: seq<Row>)
    requires forall k :: k in order ==> k in groups && groups[k] != []
    ensures |heads| == |order| && forall i :: 0 <= i < |order| ==> heads[i] == groups[order[i]][0]
  {
    seq(|order|, i requires 0 <= i < |order| => groups[order[i]][0])
  }

  /** The head of each group is the earliest pasted row of that id among those with the
      latest date (newest first) or the earliest date (oldest first). */
  lemma GroupHead(rows: seq<Row>, desc: bool, dateParse: DateParser, id: string) returns (j: nat)
    requires id in Grouped(rows, desc, dateParse)
    ensures var b := Bucket(rows, id);
      j < |b| && Grouped(rows, desc, dateParse)[id][0] == b[j] &&
      (forall i :: 0 <= i < |b| ==> Rank(b[j], desc, dateParse) <= Rank(b[i], desc, dateParse)) &&
      (forall i :: 0 <= i < j ==> Rank(b[i], desc, dateParse) > Rank(b[j], desc, dateParse))
  {
    var b := Bucket(rows, id);
    var r := IdWitness(rows, id);
    BucketCount(rows, id, r);
    assert r in multiset(b);
    assert Grouped(rows, desc, dateParse)[id] == SortRows(b, desc, dateParse);
    j := HeadIsFirstExtreme(b, desc, dateParse);
  }

  /** The stripped texts of the entries, one per entry, in list order. */
  function Stripped(entries: seq<Entry>): (lines: seq<string>)
    ensures |lines| == |entries| && forall i :: 0 <= i < |entries| ==> lines[i] == StripTags(entries[i].text)
  {
    seq(|entries|, i requires 0 <= i < |entries| => StripTags(entries[i].text))
  }

  /** The copy button: the stripped texts joined by line breaks, or nothing (an alert)
      when the list is empty. */
  function Export(entries: seq<Entry>): (r: Option<string>)
    ensures r.None? <==> entries == []
  {
    if entries == [] then None else Some(Join(Stripped(entries), "\n"))
  }

  /** Splitting the export at line breaks gives one stripped text per entry, in order. */
  lemma ExportLines(entries: seq<Entry>)
    requires entries != []
    requires forall i :: 0 <= i < |entries| ==> NoneOf(entries[i].text, {'\n'})
    ensures Split(Export(entries).value, {'\n'}) == Stripped(entries)
  {
    var lines := Stripped(entries);
    forall i, k | 0 <= i < |lines| && 0 <= k < |lines[i]| ensures lines[i][k] != '\n' {
      StripChars(entries[i].text, lines[i][k]);
      assert lines[i][k] in lines[i];
    }
    SplitJoin(lines, '\n', {'\n'});
  }

  /** The exported line of an entry whose engineer came with a tag is the key and the
      engineer's name: `T1 | 7 @ana (Degradaciones)` is copied as `T1 | 7 @ana`. */
  lemma ExportDropsTag(base: string, e: Engineer)
    requires e.etiqueta.Some? && NoneOf(e.etiqueta.value, {')'})
    requires NoneOf(base, {'(', ')'}) && NoneOf(e.nombre, {'(', ')'})
    requires e.nombre != [] && !IsSpace(e.nombre[|e.nombre| - 1])
    ensures StripTags(EntryText(base, Display(e))) == base + " " + e.nombre
  {
    var a := base + " " + e.nombre;
    var tail := " (" + e.etiqueta.value + ")";
    assert Display(e) == e.nombre + tail;
    assert EntryText(base, Display(e)) == a + tail;
    assert a[|a| - 1] == e.nombre[|e.nombre| - 1];
    assert NoneOf(a, {'(', ')'}) by {
      forall k | 0 <= k < |a| ensures a[k] !in {'(', ')'} {
        if k < |base| { assert a[k] == base[k]; }
        else if k > |base| { assert a[k] == e.nombre[k - |base| - 1]; }
      }
    }
    StripTrailingTag(a, e.etiqueta.value);
  }
}
