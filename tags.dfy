/** The clean-up the Masivos copy button applies to every selected line:
    `text.replace(/\s*\([^)]*\)/g, "")` removes each parenthesised tag together with the
    white space before it. */
module Tags {
  import opened Wrappers
  import opened Text

  /** The number of leading white-space characters: what `\s*` consumes. */
  function SpaceRun(s: string): (n: nat)
    ensures n <= |s|
    decreases |s|
  {
    if s != [] && IsSpace(s[0]) then 1 + SpaceRun(s[1..]) else 0
  }

  /** The first `)` at or after position `i`. */
  function CloseFrom(s: string, i: nat): (r: Option<nat>)
    ensures r.Some? ==> i <= r.value < |s|
    decreases |s| - i
  {
    if i >= |s| then None else if s[i] == ')' then Some(i) else CloseFrom(s, i + 1)
  }

  /** `SpaceRun` stops at the first character that is not white space. */
  lemma {:induction false} SpaceRunSpec(s: string)
    ensures AllSpace(s[..SpaceRun(s)]) && (SpaceRun(s) == |s| || !IsSpace(s[SpaceRun(s)]))
    decreases |s|
  {
    if s != [] && IsSpace(s[0]) {
      SpaceRunSpec(s[1..]);
      assert s[..SpaceRun(s)] == [s[0]] + s[1..][..SpaceRun(s[1..])];
    }
  }

  /** `CloseFrom` finds the first `)` at or after `i`, and nothing when there is none. */
  lemma {:induction false} CloseFromSpec(s: string, i: nat)
    ensures var r := CloseFrom(s, i);
      (r.Some? ==> s[r.value] == ')' && forall k :: i <= k < r.value ==> s[k] != ')') &&
      (r.None? ==> forall k :: i <= k < |s| ==> s[k] != ')')
    decreases |s| - i
  {
    if i < |s| && s[i] != ')' {
      CloseFromSpec(s, i + 1);
    }
  }

  /** The length of the match of `\s*\([^)]*\)` at the start of `s`, if it matches
      there. */
  function TagAt(s: string): (r: Option<nat>)
    ensures r.Some? ==> 2 <= r.value <= |s|
  {
    var w := SpaceRun(s);
    if w < |s| && s[w] == '(' then
      match CloseFrom(s, w + 1)
      case None => None
      case Some(c) => Some(c + 1)
    else None
  }

  /** A string the pattern `\s*\([^)]*\)` matches as a whole. */
  ghost predicate IsTag(m: string) {
    exists w :: 0 <= w < |m| - 1 && AllSpace(m[..w]) && m[w] == '(' && m[|m| - 1] == ')' &&
      NoneOf(m[w + 1..|m| - 1], {')'})
  }

  /** What `TagAt` finds is a match of the pattern. */
  lemma TagAtSound(s: string)
    ensures TagAt(s).Some? ==> IsTag(s[..TagAt(s).value])
  {
    var w := SpaceRun(s);
    SpaceRunSpec(s);
    CloseFromSpec(s, w + 1);
    if TagAt(s).Some? {
      var n := TagAt(s).value;
      var m := s[..n];
      assert m[..w] == s[..w];
      assert m[w + 1..n - 1] == s[w + 1..n - 1];
      assert NoneOf(m[w + 1..n - 1], {')'});
    }
  }

  /** Every prefix the pattern matches is what `TagAt` finds. */
  lemma TagAtComplete(s: string, n: nat)
    requires n <= |s| && IsTag(s[..n])
    ensures TagAt(s) == Some(n)
  {
    var w := TagOpening(s, n);
    CloseFromSpec(s, w + 1);
  }

  /** In a prefix the pattern matches, the `(` comes right after the leading white space
      and no `)` comes before the last character. */
  lemma TagOpening(s: string, n: nat) returns (w: nat)
    requires n <= |s| && IsTag(s[..n])
    ensures w == SpaceRun(s) && w + 1 < n && s[w] == '(' && s[n - 1] == ')'
    ensures forall k :: w < k < n - 1 ==> s[k] != ')'
  {
    w := TagParts(s, n);
    SpaceRunSpec(s);
    var r := SpaceRun(s);
    SpaceAt(s[..w], r);
    SpaceAt(s[..r], w);
  }

  /** The parts of a prefix the pattern matches, read off the original text. */
  lemma TagParts(s: string, n: nat) returns (w: nat)
    requires n <= |s| && IsTag(s[..n])
    ensures w + 1 < n && AllSpace(s[..w]) && s[w] == '(' && s[n - 1] == ')'
    ensures forall k :: w < k < n - 1 ==> s[k] != ')'
  {
    var m := s[..n];
    w :| 0 <= w < |m| - 1 && AllSpace(m[..w]) && m[w] == '(' && m[|m| - 1] == ')' &&
      NoneOf(m[w + 1..|m| - 1], {')'});
    assert m[..w] == s[..w];
    forall k | w < k < n - 1 ensures s[k] != ')' {
      NotInAt(m[w + 1..n - 1], {')'}, k - w - 1);
    }
  }

  /** `TagAt` finds exactly the prefixes the pattern matches (there is at most one). */
  lemma TagAtIff(s: string, n: nat)
    requires n <= |s|
    ensures TagAt(s) == Some(n) <==> IsTag(s[..n])
  {
    TagAtSound(s);
    if IsTag(s[..n]) {
      TagAtComplete(s, n);
    }
  }

  /** `text.replace(/\s*\([^)]*\)/g, "")`: scanning from the left, every match is cut
      out and every other character is kept. */
  function StripTags(s: string): (r: string)
    ensures |r| <= |s|
    decreases |s|
  {
    if s == [] then []
    else match TagAt(s)
      case Some(n) => StripTags(s[n..])
      case None => [s[0]] + StripTags(s[1..])
  }

  /** No `(` is followed, anywhere later, by a `)`: the pattern matches nowhere. */
  ghost predicate Clean(s: string) {
    forall i, j :: 0 <= i < j < |s| && s[i] == '(' ==> s[j] != ')'
  }

  lemma {:induction false} StripChars(s: string, c: char)
    ensures c in StripTags(s) ==> c in s
    decreases |s|
  {
    if s != [] {
      match TagAt(s)
      case Some(n) =>
        StripChars(s[n..], c);
        assert c in s[n..] ==> c in s;
      case None =>
        StripChars(s[1..], c);
    }
  }

  /** Nothing the pattern matches is left in the exported text. */
  lemma {:induction false} StripTagsClean(s: string)
    ensures Clean(StripTags(s))
    decreases |s|
  {
    if s != [] {
      match TagAt(s)
      case Some(n) =>
        StripTagsClean(s[n..]);
      case None =>
        var rest := StripTags(s[1..]);
        StripTagsClean(s[1..]);
        var r := [s[0]] + rest;
        if s[0] == '(' {
          assert SpaceRun(s) == 0;
          CloseFromSpec(s, 1);
          forall j | 0 <= j < |rest| ensures rest[j] != ')' {
            StripChars(s[1..], rest[j]);
            assert rest[j] in rest;
          }
        }
        forall i, j | 0 <= i < j < |r| && r[i] == '(' ensures r[j] != ')' {
          assert r[j] == rest[j - 1];
          if i > 0 { assert r[i] == rest[i - 1]; }
        }
    }
  }

  lemma CleanAt(s: string, i: int, j: int)
    ensures Clean(s) && 0 <= i < j < |s| && s[i] == '(' ==> s[j] != ')'
  {
  }

  lemma {:induction false} CleanNoTag(s: string)
    requires Clean(s)
    ensures TagAt(s).None?
  {
    var w := SpaceRun(s);
    if w < |s| && s[w] == '(' {
      CloseFromSpec(s, w + 1);
      CleanAt(s, w, CloseFrom(s, w + 1).GetOr(0));
    }
  }

  lemma {:induction false} CleanFixed(s: string)
    requires Clean(s)
    ensures StripTags(s) == s
    decreases |s|
  {
    if s != [] {
      CleanNoTag(s);
      assert Clean(s[1..]) by {
        forall i, j | 0 <= i < j < |s[1..]| && s[1..][i] == '(' ensures s[1..][j] != ')' {
          assert s[1..][i] == s[i + 1] && s[1..][j] == s[j + 1];
        }
      }
      CleanFixed(s[1..]);
    }
  }

  /** Stripping twice strips nothing more. */
  lemma StripTagsIdempotent(s: string)
    ensures StripTags(StripTags(s)) == StripTags(s)
  {
    StripTagsClean(s);
    CleanFixed(StripTags(s));
  }

  /** Where the pattern matches at none of the first `k` positions, those characters are
      kept as they are. */
  lemma {:induction false} StripKeepsPrefix(s: string, k: nat)
    requires k <= |s|
    requires forall p :: 0 <= p < k ==> TagAt(s[p..]).None?
    ensures StripTags(s) == s[..k] + StripTags(s[k..])
    decreases k
  {
    if k > 0 {
      assert s[0..] == s;
      NoTagShift(s, k);
      StripKeepsPrefix(s[1..], k - 1);
      StripPrefixStep(s, k);
    }
  }

  lemma StripPrefixStep(s: string, k: nat)
    requires 0 < k <= |s| && TagAt(s).None?
    requires StripTags(s[1..]) == s[1..][..k - 1] + StripTags(s[1..][k - 1..])
    ensures StripTags(s) == s[..k] + StripTags(s[k..])
  {
    StripKept(s);
    assert s[1..][k - 1..] == s[k..];
    assert s[..k] == [s[0]] + s[1..][..k - 1];
    AppendAssoc([s[0]], s[1..][..k - 1], StripTags(s[k..]));
  }

  lemma StripKept(s: string)
    requires s != [] && TagAt(s).None?
    ensures StripTags(s) == [s[0]] + StripTags(s[1..])
  {
  }

  lemma NoTagShift(s: string, k: nat)
    requires 0 < k <= |s|
    requires forall p :: 0 <= p < k ==> TagAt(s[p..]).None?
    ensures forall p :: 0 <= p < k - 1 ==> TagAt(s[1..][p..]).None?
  {
    forall p | 0 <= p < k - 1 ensures TagAt(s[1..][p..]).None? {
      assert s[1..][p..] == s[p + 1..];
    }
  }

  lemma NoTagInside(a: string, tail: string, p: nat)
    requires NoneOf(a, {'(', ')'}) && a != [] && !IsSpace(a[|a| - 1]) && p < |a|
    ensures TagAt((a + tail)[p..]).None?
  {
    var q := (a + tail)[p..];
    assert q[|a| - 1 - p] == a[|a| - 1];
    var w := SpaceRun(q);
    SpaceRunSpec(q);
    SpaceAt(q[..w], |a| - 1 - p);
    assert q[w] == a[p + w];
  }

  lemma TailTag(t: string)
    requires NoneOf(t, {')'})
    ensures TagAt(" (" + t + ")") == Some(|t| + 3)
  {
    var tail := " (" + t + ")";
    assert tail[1..][0] == '(';
    assert SpaceRun(tail[1..]) == 0;
    assert SpaceRun(tail) == 1;
    var c := CloseFrom(tail, 2);
    CloseFromSpec(tail, 2);
    assert tail[2..|tail| - 1] == t;
    NotInAt(tail[2..|tail| - 1], {')'}, c.GetOr(|tail| - 1) - 2);
    assert tail[|tail| - 1] == ')';
    assert c == Some(|tail| - 1);
  }

  lemma StripTail(t: string)
    requires NoneOf(t, {')'})
    ensures StripTags(" (" + t + ")") == []
  {
    var tail := " (" + t + ")";
    TailTag(t);
    assert tail[|tail|..] == [];
  }

  /** A text ending in ` (tag)`, with no parenthesis before it and no `)` inside the tag,
      loses exactly that suffix. */
  lemma StripTrailingTag(a: string, t: string)
    requires NoneOf(a, {'(', ')'}) && NoneOf(t, {')'})
    requires a == [] || !IsSpace(a[|a| - 1])
    ensures StripTags(a + (" (" + t + ")")) == a
  {
    var tail := " (" + t + ")";
    var s := a + tail;
    forall p | 0 <= p < |a| ensures TagAt(s[p..]).None? {
      NoTagInside(a, tail, p);
    }
    StripKeepsPrefix(s, |a|);
    assert s[..|a|] == a && s[|a|..] == tail;
    StripTail(t);
    assert StripTags(s) == a + [];
  }
}
