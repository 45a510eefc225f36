/** The JavaScript string primitives the Masivos and Escalación modules are built from:
    `trim`, `split` on one-character separators, `join`, `toLowerCase` and `includes`. */
module Text {

  /** The characters `String.prototype.trim` removes and the regular expression `\s`
      matches: ECMAScript's WhiteSpace and LineTerminator characters. */
  predicate IsSpace(c: char) {
    c == '\t' || c == '\n' || c == '\U{B}' || c == '\U{C}' || c == '\r' || c == ' '
    || c == '\U{A0}' || c == '\U{1680}' || ('\U{2000}' <= c <= '\U{200A}')
    || c == '\U{2028}' || c == '\U{2029}' || c == '\U{202F}' || c == '\U{205F}'
    || c == '\U{3000}' || c == '\U{FEFF}'
  }

  predicate AllSpace(s: string) {
    forall i :: 0 <= i < |s| ==> IsSpace(s[i])
  }

  /** True when `s` contains none of the characters in `cs`. */
  predicate NoneOf(s: string, cs: set<char>) {
    forall i :: 0 <= i < |s| ==> s[i] !in cs
  }

  lemma SpaceAt(x: string, i: int)
    ensures AllSpace(x) && 0 <= i < |x| ==> IsSpace(x[i])
  {
  }

  lemma NotInAt(x: string, cs: set<char>, i: int)
    ensures NoneOf(x, cs) && 0 <= i < |x| ==> x[i] !in cs
  {
  }

  /** Neither end of `s` is white space (so `trim` leaves it alone). */
  predicate Trimmed(s: string) {
    s == [] || (!IsSpace(s[0]) && !IsSpace(s[|s| - 1]))
  }

  lemma SpaceDropFirst(s: string, r: string)
    requires s != [] && IsSpace(s[0]) && |r| < |s|
    requires r == s[1..][|s| - 1 - |r|..] && AllSpace(s[1..][..|s| - 1 - |r|])
    ensures r == s[|s| - |r|..] && AllSpace(s[..|s| - |r|])
  {
    assert s[..|s| - |r|] == [s[0]] + s[1..][..|s| - 1 - |r|];
  }

  lemma SpaceDropLast(s: string, r: string)
    requires s != [] && IsSpace(s[|s| - 1]) && |r| < |s|
    requires r == s[..|s| - 1][..|r|] && AllSpace(s[..|s| - 1][|r|..])
    ensures r == s[..|r|] && AllSpace(s[|r|..])
  {
    assert s[|r|..] == s[..|s| - 1][|r|..] + [s[|s| - 1]];
  }

  /** `s` without its leading white space. */
  function TrimStart(s: string): (r: string)
    ensures |r| <= |s|
  {
    if s != [] && IsSpace(s[0]) then TrimStart(s[1..]) else s
  }

  /** `TrimStart` drops a white-space prefix and stops at the first other character. */
  lemma {:induction false} TrimStartSpec(s: string)
    ensures var r := TrimStart(s);
      r == s[|s| - |r|..] && AllSpace(s[..|s| - |r|]) && (r == [] || !IsSpace(r[0]))
    decreases |s|
  {
    if s != [] && IsSpace(s[0]) {
      TrimStartSpec(s[1..]);
      SpaceDropFirst(s, TrimStart(s[1..]));
    }
  }

  /** `s` without its trailing white space. */
  function TrimEnd(s: string): (r: string)
    ensures |r| <= |s|
  {
    if s != [] && IsSpace(s[|s| - 1]) then TrimEnd(s[..|s| - 1]) else s
  }

  /** `TrimEnd` drops a white-space suffix and stops at the last other character. */
  lemma {:induction false} TrimEndSpec(s: string)
    ensures var r := TrimEnd(s);
      r == s[..|r|] && AllSpace(s[|r|..]) && (r == [] || !IsSpace(r[|r| - 1]))
    decreases |s|
  {
    if s != [] && IsSpace(s[|s| - 1]) {
      TrimEndSpec(s[..|s| - 1]);
      SpaceDropLast(s, TrimEnd(s[..|s| - 1]));
    }
  }

  /** `s.trim()`: the white space at both ends removed. */
  function Trim(s: string): (r: string)
    ensures |r| <= |s|
    ensures Trimmed(r)
    ensures r == [] <==> AllSpace(s)
  {
    var t := TrimStart(s);
    var r := TrimEnd(t);
    TrimStartSpec(s);
    TrimEndSpec(t);
    assert r == [] ==> AllSpace(s) by {
      if r == [] {
        assert t[|r|..] == t;
        assert s[..|s| - |t|] == s;
      }
    }
    assert r != [] ==> t != [] && r[0] == t[0];
    r
  }

  /** Trimming removes characters and adds none. */
  lemma TrimNoneOf(s: string, cs: set<char>)
    ensures NoneOf(s, cs) ==> NoneOf(Trim(s), cs)
  {
    var t := TrimStart(s);
    TrimStartSpec(s);
    TrimEndSpec(t);
  }

  lemma TrimOfTrimmed(s: string)
    requires Trimmed(s)
    ensures Trim(s) == s
  {
  }

  lemma AppendAssoc<T>(a: seq<T>, b: seq<T>, c: seq<T>)
    ensures a + (b + c) == (a + b) + c
  {
  }

  lemma TrimStartParts(s: string)
    ensures s == s[..|s| - |TrimStart(s)|] + TrimStart(s)
  {
    var t := TrimStart(s);
    TrimStartSpec(s);
    assert s == s[..|s| - |t|] + s[|s| - |t|..];
  }

  lemma TrimEndParts(t: string)
    ensures t == TrimEnd(t) + t[|TrimEnd(t)|..]
  {
    var r := TrimEnd(t);
    TrimEndSpec(t);
    assert t == t[..|r|] + t[|r|..];
  }

  /** A string is its trimmed form with white space on either side. */
  lemma TrimSurround(s: string) returns (pre: string, post: string)
    ensures s == pre + Trim(s) + post && AllSpace(pre) && AllSpace(post)
  {
    var t := TrimStart(s);
    var r := TrimEnd(t);
    assert Trim(s) == r;
    pre := s[..|s| - |t|];
    post := t[|r|..];
    TrimStartSpec(s);
    TrimEndSpec(t);
    TrimStartParts(s);
    TrimEndParts(t);
    AppendAssoc(pre, r, post);
  }

  lemma {:induction false} TrimPrependSpace(c: char, s: string)
    requires IsSpace(c)
    ensures Trim([c] + s) == Trim(s)
  {
    assert ([c] + s)[1..] == s;
  }

  lemma {:induction false} TrimStartAppendSpace(s: string, c: char)
    requires IsSpace(c)
    ensures TrimStart(s + [c]) == if AllSpace(s) then [] else TrimStart(s) + [c]
    decreases |s|
  {
    if s == [] {
      assert [c][1..] == [];
    } else if IsSpace(s[0]) {
      assert (s + [c])[1..] == s[1..] + [c];
      TrimStartAppendSpace(s[1..], c);
      assert AllSpace(s) <==> AllSpace(s[1..]) by {
        if AllSpace(s[1..]) {
          forall i | 0 <= i < |s| ensures IsSpace(s[i]) { if i > 0 { assert s[i] == s[1..][i - 1]; } }
        }
      }
    } else {
      assert !AllSpace(s);
    }
  }

  lemma {:induction false} TrimAppendSpace(s: string, c: char)
    requires IsSpace(c)
    ensures Trim(s + [c]) == Trim(s)
  {
    TrimStartAppendSpace(s, c);
    if !AllSpace(s) {
      var t := TrimStart(s);
      assert (t + [c])[..|t + [c]| - 1] == t;
    }
  }

  /** `lines.filter(l => l.trim() !== '')`. */
  function NonBlank(lines: seq<string>): (r: seq<string>)
    ensures |r| <= |lines|
    ensures forall i :: 0 <= i < |r| ==> Trim(r[i]) != []
  {
    if lines == [] then []
    else if Trim(lines[0]) != [] then [lines[0]] + NonBlank(lines[1..])
    else NonBlank(lines[1..])
  }

  lemma {:induction false} NonBlankAppend(a: seq<string>, b: seq<string>)
    ensures NonBlank(a + b) == NonBlank(a) + NonBlank(b)
  {
    if a != [] {
      assert (a + b)[1..] == a[1..] + b;
      NonBlankAppend(a[1..], b);
    } else {
      assert a + b == b;
    }
  }

  /** Dropping blank lines keeps a list with none. */
  lemma {:induction false} NonBlankKeepsAll(lines: seq<string>)
    requires forall i :: 0 <= i < |lines| ==> Trim(lines[i]) != []
    ensures NonBlank(lines) == lines
  {
    if lines != [] {
      NonBlankKeepsAll(lines[1..]);
    }
  }

  lemma {:induction false} NonBlankNoneOf(lines: seq<string>, cs: set<char>)
    requires forall i :: 0 <= i < |lines| ==> NoneOf(lines[i], cs)
    ensures forall i :: 0 <= i < |NonBlank(lines)| ==> NoneOf(NonBlank(lines)[i], cs)
  {
    if lines != [] {
      NonBlankNoneOf(lines[1..], cs);
    }
  }

  /** Each string trimmed. */
  function TrimEach(lines: seq<string>): (r: seq<string>)
    ensures |r| == |lines| && forall i :: 0 <= i < |lines| ==> r[i] == Trim(lines[i])
  {
    seq(|lines|, i requires 0 <= i < |lines| => Trim(lines[i]))
  }

  /** `s.split(re)` where `re` matches any one character of `seps`: the pieces between
      consecutive separators, from left to right; never empty. */
  function Split(s: string, seps: set<char>): (parts: seq<string>)
    ensures |parts| >= 1
    ensures forall i :: 0 <= i < |parts| ==> NoneOf(parts[i], seps)
    ensures parts[0] <= s
    ensures |parts| == 1 ==> parts[0] == s
  {
    if s == [] then [[]]
    else
      var rest := Split(s[1..], seps);
      if s[0] in seps then [[]] + rest
      else [[s[0]] + rest[0]] + rest[1..]
  }

  /** `parts.join(sep)`. */
  function Join(parts: seq<string>, sep: string): (r: string)
    ensures |parts| == 1 ==> r == parts[0]
  {
    if parts == [] then []
    else if |parts| == 1 then parts[0]
    else parts[0] + sep + Join(parts[1..], sep)
  }

  lemma {:induction false} SplitPiece(p: string, seps: set<char>)
    requires NoneOf(p, seps)
    ensures Split(p, seps) == [p]
    decreases |p|
  {
    if p != [] {
      SplitPiece(p[1..], seps);
    }
  }

  lemma {:induction false} SplitPieceThenSep(p: string, c: char, rest: string, seps: set<char>)
    requires NoneOf(p, seps) && c in seps
    ensures Split(p + [c] + rest, seps) == [p] + Split(rest, seps)
    decreases |p|
  {
    var s := p + [c] + rest;
    if p == [] {
      assert s[1..] == rest;
    } else {
      assert s[1..] == p[1..] + [c] + rest;
      SplitPieceThenSep(p[1..], c, rest, seps);
      assert [p[0]] + p[1..] == p;
    }
  }

  /** Splitting at `c` undoes joining with `c` when no piece holds a separator. */
  lemma {:induction false} SplitJoin(parts: seq<string>, c: char, seps: set<char>)
    requires |parts| >= 1 && c in seps
    requires forall i :: 0 <= i < |parts| ==> NoneOf(parts[i], seps)
    ensures Split(Join(parts, [c]), seps) == parts
    decreases |parts|
  {
    if |parts| == 1 {
      SplitPiece(parts[0], seps);
    } else {
      SplitJoin(parts[1..], c, seps);
      SplitPieceThenSep(parts[0], c, Join(parts[1..], [c]), seps);
      assert [parts[0]] + parts[1..] == parts;
    }
  }

  lemma JoinConsHead(x: string, a: string, t: seq<string>, sep: string)
    ensures Join([x + a] + t, sep) == x + Join([a] + t, sep)
  {
    if t != [] {
      assert ([x + a] + t)[1..] == t;
      assert ([a] + t)[1..] == t;
    }
  }

  /** Joining with `c` undoes splitting at `c`. */
  lemma {:induction false} JoinSplit(s: string, c: char)
    ensures Join(Split(s, {c}), [c]) == s
    decreases |s|
  {
    if s != [] {
      var rest := Split(s[1..], {c});
      JoinSplit(s[1..], c);
      if s[0] == c {
        assert ([[]] + rest)[1..] == rest;
      } else {
        assert [rest[0]] + rest[1..] == rest;
        JoinConsHead([s[0]], rest[0], rest[1..], [c]);
      }
    }
  }

  lemma {:induction false} JoinEnds(parts: seq<string>, sep: string)
    requires |parts| >= 1
    ensures var r := Join(parts, sep);
      parts[0] <= r && |parts[|parts| - 1]| <= |r| && r[|r| - |parts[|parts| - 1]|..] == parts[|parts| - 1]
    decreases |parts|
  {
    if |parts| > 1 {
      JoinEnds(parts[1..], sep);
      var r := Join(parts, sep);
      var q := Join(parts[1..], sep);
      assert r == parts[0] + sep + q;
      assert r[|r| - |q|..] == q;
    }
  }

  /** Joining pieces that are trimmed, with a separator that does not start or end in
      white space, gives a trimmed string. */
  lemma {:induction false} JoinTrimmed(parts: seq<string>, sep: string)
    requires forall i :: 0 <= i < |parts| ==> Trimmed(parts[i])
    requires sep != [] && Trimmed(sep)
    ensures Trimmed(Join(parts, sep))
    decreases |parts|
  {
    if |parts| > 1 {
      JoinTrimmed(parts[1..], sep);
      var q := Join(parts[1..], sep);
      var r := parts[0] + sep + q;
      assert r[0] == if parts[0] == [] then sep[0] else parts[0][0];
      assert r[|r| - 1] == if q == [] then sep[|sep| - 1] else q[|q| - 1];
    }
  }

  lemma {:induction false} JoinNoneOf(parts: seq<string>, sep: string, cs: set<char>)
    requires forall i :: 0 <= i < |parts| ==> NoneOf(parts[i], cs)
    requires NoneOf(sep, cs)
    ensures NoneOf(Join(parts, sep), cs)
    decreases |parts|
  {
    if |parts| > 1 {
      JoinNoneOf(parts[1..], sep, cs);
      var q := Join(parts[1..], sep);
      var r := parts[0] + sep + q;
      forall i | 0 <= i < |r| ensures r[i] !in cs {
        if i < |parts[0]| { assert r[i] == parts[0][i]; }
        else if i < |parts[0]| + |sep| { assert r[i] == sep[i - |parts[0]|]; }
        else { assert r[i] == q[i - |parts[0]| - |sep|]; }
      }
    }
  }

  lemma {:induction false} SplitAppendChar(s: string, c: char, seps: set<char>)
    ensures Split(s + [c], seps) == AppendToPieces(Split(s, seps), c, seps)
    decreases |s|
  {
    if s == [] {
      assert Split([c][1..], seps) == [[]];
    } else {
      assert (s + [c])[1..] == s[1..] + [c];
      SplitAppendChar(s[1..], c, seps);
      SplitConsStep(s, c, seps);
    }
  }

  /** The pieces after one more character `c` is appended to the text that split into `p`. */
  function AppendToPieces(p: seq<string>, c: char, seps: set<char>): (q: seq<string>)
    requires |p| >= 1
    ensures |q| >= 1
  {
    if c in seps then p + [[]] else p[..|p| - 1] + [p[|p| - 1] + [c]]
  }

  lemma SplitConsStep(s: string, c: char, seps: set<char>)
    requires s != [] && (s + [c])[1..] == s[1..] + [c]
    requires Split(s[1..] + [c], seps) == AppendToPieces(Split(s[1..], seps), c, seps)
    ensures Split(s + [c], seps) == AppendToPieces(Split(s, seps), c, seps)
  {
    var rest := Split(s[1..], seps);
    var rest' := Split(s[1..] + [c], seps);
    if s[0] in seps {
      assert Split(s + [c], seps) == [[]] + rest';
      assert Split(s, seps) == [[]] + rest;
      PiecesAfterSep(rest, c, seps);
    } else {
      assert Split(s + [c], seps) == [[s[0]] + rest'[0]] + rest'[1..];
      assert Split(s, seps) == [[s[0]] + rest[0]] + rest[1..];
      PiecesAfterChar(rest, s[0], c, seps);
    }
  }

  lemma PiecesAfterSep(rest: seq<string>, c: char, seps: set<char>)
    requires |rest| >= 1
    ensures [[]] + AppendToPieces(rest, c, seps) == AppendToPieces([[]] + rest, c, seps)
  {
    if c !in seps {
      assert ([[]] + rest)[..|rest|] == [[]] + rest[..|rest| - 1];
    }
  }

  lemma PiecesAfterChar(rest: seq<string>, x: char, c: char, seps: set<char>)
    requires |rest| >= 1
    ensures var q := AppendToPieces(rest, c, seps);
      [[x] + q[0]] + q[1..] == AppendToPieces([[x] + rest[0]] + rest[1..], c, seps)
  {
    var q := AppendToPieces(rest, c, seps);
    var p := [[x] + rest[0]] + rest[1..];
    if c in seps {
      assert q[0] == rest[0] && q[1..] == rest[1..] + [[]];
    } else if |rest| == 1 {
      assert q == [rest[0] + [c]];
      assert [x] + (rest[0] + [c]) == ([x] + rest[0]) + [c];
    } else {
      assert q[0] == rest[0];
      assert q[1..] == rest[1..|rest| - 1] + [rest[|rest| - 1] + [c]];
      assert p[..|p| - 1] == [[x] + rest[0]] + rest[1..|rest| - 1];
    }
  }

  /** Trimming the whole text before splitting it into lines (at white-space separators)
      and dropping blank lines leaves the same lines, up to trimming each one. */
  lemma {:induction false} NonBlankLinesOfTrim(s: string, seps: set<char>)
    requires forall c :: c in seps ==> IsSpace(c)
    ensures TrimEach(NonBlank(Split(Trim(s), seps))) == TrimEach(NonBlank(Split(s, seps)))
  {
    var t := TrimStart(s);
    var r := TrimEnd(t);
    TrimStartSpec(s);
    TrimEndSpec(t);
    LinesOfTrimStart(s, t, seps);
    LinesOfTrimEnd(t, r, seps);
  }

  lemma LinesOfTrimStart(s: string, t: string, seps: set<char>)
    requires forall c :: c in seps ==> IsSpace(c)
    requires |t| <= |s| && t == s[|s| - |t|..] && AllSpace(s[..|s| - |t|])
    ensures TrimEach(NonBlank(Split(t, seps))) == TrimEach(NonBlank(Split(s, seps)))
  {
    NonBlankLinesDropFront(s, |s| - |t|, seps);
  }

  lemma LinesOfTrimEnd(t: string, r: string, seps: set<char>)
    requires forall c :: c in seps ==> IsSpace(c)
    requires |r| <= |t| && r == t[..|r|] && AllSpace(t[|r|..])
    ensures TrimEach(NonBlank(Split(r, seps))) == TrimEach(NonBlank(Split(t, seps)))
  {
    NonBlankLinesDropBack(t, |r|, seps);
  }

  lemma NonBlankCons(x: string, t: seq<string>)
    ensures NonBlank([x] + t) == (if Trim(x) != [] then [x] else []) + NonBlank(t)
  {
    assert ([x] + t)[1..] == t;
  }

  lemma TrimEachAppend(a: seq<string>, b: seq<string>)
    ensures TrimEach(a + b) == TrimEach(a) + TrimEach(b)
  {
  }

  /** Two lines that trim alike contribute alike to the trimmed non-blank lines. */
  lemma {:induction false} NonBlankHeadAlike(x: string, y: string, t: seq<string>)
    requires Trim(x) == Trim(y)
    ensures TrimEach(NonBlank([x] + t)) == TrimEach(NonBlank([y] + t))
  {
    NonBlankCons(x, t);
    NonBlankCons(y, t);
    var nt := NonBlank(t);
    if Trim(x) != [] {
      TrimEachAppend([x], nt);
      TrimEachAppend([y], nt);
      assert TrimEach([x]) == [Trim(x)] == TrimEach([y]);
    } else {
      assert [] + nt == nt;
    }
  }

  lemma NonBlankSingleAlike(x: string, y: string)
    requires Trim(x) == Trim(y)
    ensures TrimEach(NonBlank([x])) == TrimEach(NonBlank([y]))
  {
    assert [x][1..] == [] && [y][1..] == [];
  }

  /** Two lines that trim alike contribute alike to the trimmed non-blank lines. */
  lemma {:induction false} NonBlankLastAlike(t: seq<string>, x: string, y: string)
    requires Trim(x) == Trim(y)
    ensures TrimEach(NonBlank(t + [x])) == TrimEach(NonBlank(t + [y]))
  {
    NonBlankAppend(t, [x]);
    NonBlankAppend(t, [y]);
    NonBlankSingleAlike(x, y);
    TrimEachAppend(NonBlank(t), NonBlank([x]));
    TrimEachAppend(NonBlank(t), NonBlank([y]));
  }

  /** One leading white-space character changes no line once lines are trimmed. */
  lemma {:induction false} NonBlankLinesPrependSpace(c: char, s: string, seps: set<char>)
    requires forall c :: c in seps ==> IsSpace(c)
    requires IsSpace(c)
    ensures TrimEach(NonBlank(Split([c] + s, seps))) == TrimEach(NonBlank(Split(s, seps)))
  {
    var rest := Split(s, seps);
    assert ([c] + s)[1..] == s;
    if c in seps {
      assert Split([c] + s, seps) == [[]] + rest;
      NonBlankCons([], rest);
      assert [] + NonBlank(rest) == NonBlank(rest);
    } else {
      var tail := rest[1..];
      assert Split([c] + s, seps) == [[c] + rest[0]] + tail;
      assert rest == [rest[0]] + tail;
      TrimPrependSpace(c, rest[0]);
      NonBlankHeadAlike([c] + rest[0], rest[0], tail);
    }
  }

  /** One trailing white-space character changes no line once lines are trimmed. */
  lemma {:induction false} NonBlankLinesAppendSpace(s: string, c: char, seps: set<char>)
    requires forall c :: c in seps ==> IsSpace(c)
    requires IsSpace(c)
    ensures TrimEach(NonBlank(Split(s + [c], seps))) == TrimEach(NonBlank(Split(s, seps)))
  {
    var p := Split(s, seps);
    SplitAppendChar(s, c, seps);
    if c in seps {
      var empty: seq<string> := [[]];
      NonBlankAppend(p, empty);
      NonBlankCons([], []);
      assert empty == [[]] + [];
      assert NonBlank(p) + [] == NonBlank(p);
    } else {
      var front := p[..|p| - 1];
      var last := p[|p| - 1];
      assert p == front + [last];
      TrimAppendSpace(last, c);
      NonBlankLastAlike(front, last + [c], last);
    }
  }

  lemma {:induction false} NonBlankLinesDropFront(s: string, k: nat, seps: set<char>)
    requires forall c :: c in seps ==> IsSpace(c)
    requires k <= |s| && AllSpace(s[..k])
    ensures TrimEach(NonBlank(Split(s[k..], seps))) == TrimEach(NonBlank(Split(s, seps)))
    decreases k
  {
    if k > 0 {
      var s' := s[1..];
      assert s'[k - 1..] == s[k..];
      assert s'[..k - 1] == s[..k][1..];
      assert IsSpace(s[0]) by { assert s[0] == s[..k][0]; }
      NonBlankLinesDropFront(s', k - 1, seps);
      assert [s[0]] + s' == s;
      NonBlankLinesPrependSpace(s[0], s', seps);
    } else {
      assert s[k..] == s;
    }
  }

  lemma {:induction false} NonBlankLinesDropBack(s: string, n: nat, seps: set<char>)
    requires forall c :: c in seps ==> IsSpace(c)
    requires n <= |s| && AllSpace(s[n..])
    ensures TrimEach(NonBlank(Split(s[..n], seps))) == TrimEach(NonBlank(Split(s, seps)))
    decreases |s| - n
  {
    if n < |s| {
      var init := s[..|s| - 1];
      var c := s[|s| - 1];
      assert s == init + [c];
      assert init[..n] == s[..n];
      assert init[n..] == s[n..][..|s| - 1 - n];
      assert IsSpace(c) by { assert c == s[n..][|s| - 1 - n]; }
      NonBlankLinesDropBack(init, n, seps);
      NonBlankLinesAppendSpace(init, c, seps);
    } else {
      assert s[..n] == s;
    }
  }

  /** `toLowerCase` on one character: ASCII and Latin-1 capitals, the Kelvin sign and
      the Angstrom sign. Every string the core compares lower-cased text against is
      made of characters from these ranges. */
  function LowerChar(c: char): char {
    if 'A' <= c <= 'Z' || ('\U{C0}' <= c <= '\U{DE}' && c != '\U{D7}') then (c as int + 32) as char
    else if c == '\U{212A}' then 'k'
    else if c == '\U{212B}' then '\U{E5}'
    else c
  }

  /** `s.toLowerCase()`, character by character. */
  function Lower(s: string): (r: string)
    ensures |r| == |s| && forall i :: 0 <= i < |s| ==> r[i] == LowerChar(s[i])
  {
    seq(|s|, i requires 0 <= i < |s| => LowerChar(s[i]))
  }

  lemma LowerAppend(a: string, b: string)
    ensures Lower(a + b) == Lower(a) + Lower(b)
  {
  }

  /** `s.includes(p)`: `p` occurs in `s` as a contiguous piece. */
  predicate Contains(s: string, p: string)
    decreases |s|
  {
    p <= s || (s != [] && Contains(s[1..], p))
  }

  lemma {:induction false} ContainsAt(s: string, p: string, i: nat)
    requires i + |p| <= |s| && s[i..i + |p|] == p
    ensures Contains(s, p)
    decreases i
  {
    if i > 0 {
      assert s[1..][i - 1..i - 1 + |p|] == s[i..i + |p|];
      ContainsAt(s[1..], p, i - 1);
    } else {
      assert p <= s;
    }
  }

  lemma {:induction false} ContainsWitness(s: string, p: string) returns (i: nat)
    requires Contains(s, p)
    ensures i + |p| <= |s| && s[i..i + |p|] == p
    decreases |s|
  {
    if p <= s {
      i := 0;
    } else {
      var j := ContainsWitness(s[1..], p);
      i := j + 1;
      assert s[i..i + |p|] == s[1..][j..j + |p|];
    }
  }

  /** An occurrence stays an occurrence when text is added on either side. */
  lemma ContainsWithin(a: string, s: string, b: string, p: string)
    requires Contains(s, p)
    ensures Contains(a + s + b, p)
  {
    var i := ContainsWitness(s, p);
    assert (a + s + b)[|a| + i..|a| + i + |p|] == s[i..i + |p|];
    ContainsAt(a + s + b, p, |a| + i);
  }

  lemma CharOfOccurrence(s: string, p: string, i: nat, k: int)
    ensures i + |p| <= |s| && s[i..i + |p|] == p && 0 <= k < |p| ==> p[k] == s[i + k]
  {
  }

  /** An occurrence inside the piece `s[lo..hi]` is an occurrence in that piece. */
  lemma ContainsInPiece(s: string, lo: nat, hi: nat, p: string, i: nat)
    requires lo <= i && i + |p| <= hi <= |s| && s[i..i + |p|] == p
    ensures Contains(s[lo..hi], p)
  {
    var piece := s[lo..hi];
    forall j | i - lo <= j < i - lo + |p| ensures piece[j] == s[j + lo] {
    }
    assert piece[i - lo..i - lo + |p|] == s[i..i + |p|];
    ContainsAt(piece, p, i - lo);
  }

  /** An occurrence in `a + [c] + b` of a pattern without `c` lies inside `a` or inside
      `b`. */
  lemma ContainsSplit(a: string, c: char, b: string, p: string)
    requires p != [] && NoneOf(p, {c}) && Contains(a + [c] + b, p)
    ensures Contains(a, p) || Contains(b, p)
  {
    var s := a + [c] + b;
    var i := ContainsWitness(s, p);
    CharOfOccurrence(s, p, i, |a| - i);
    NotInAt(p, {c}, |a| - i);
    if i + |p| <= |a| {
      assert s[0..|a|] == a;
      ContainsInPiece(s, 0, |a|, p, i);
    } else {
      assert s[|a| + 1..|s|] == b;
      ContainsInPiece(s, |a| + 1, |s|, p, i);
    }
  }

  /** A pattern without `c` occurs in `a + [c] + b` only inside `a` or inside `b`. */
  lemma ContainsAcross(a: string, c: char, b: string, p: string)
    requires p != [] && NoneOf(p, {c})
    ensures Contains(a + [c] + b, p) <==> Contains(a, p) || Contains(b, p)
  {
    var s := a + [c] + b;
    if Contains(s, p) { ContainsSplit(a, c, b, p); }
    if Contains(a, p) { ContainsWithin([], a, [c] + b, p); assert [] + a + ([c] + b) == s; }
    if Contains(b, p) { ContainsWithin(a + [c], b, [], p); assert a + [c] + b + [] == s; }
  }
}
