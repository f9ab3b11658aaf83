/**
 * The regular expressions of import-map.ts, each as a matcher that tries the pattern at the
 * start of a text. Each matcher follows the order in which a backtracking engine tries the
 * pattern's alternatives and quantifiers, worked out below once per pattern, so that it reports
 * the match (and the capture groups) the engine reports first.
 */
module Patterns {
  import opened JsStrings
  import opened Scanning

  /**
   * The lazy `.*?` followed by `p`: the first index at which `p` occurs in `u`, provided no line
   * terminator comes before it (`.` does not match one).
   */
  function LazyUntil(u: string, p: string): (r: Option<nat>)
    ensures r.Some? ==> OccursAt(u, p, r.value)
    decreases |u|
  {
    if OccursAt(u, p, 0) then Some(0)
    else if |u| == 0 || IsLineTerminator(u[0]) then None
    else
      match LazyUntil(u[1..], p)
      case None => None
      case Some(j) =>
        OccursAtTail(u, p, j);
        Some(j + 1)
  }

  /** The lazy `.*?p` passes over no line terminator and no earlier occurrence of `p` */
  lemma {:induction false} LazyUntilFirst(u: string, p: string)
    requires LazyUntil(u, p).Some?
    ensures forall i | 0 <= i < LazyUntil(u, p).value :: !IsLineTerminator(u[i]) && !OccursAt(u, p, i)
    decreases |u|
  {
    if !OccursAt(u, p, 0) {
      var j := LazyUntil(u[1..], p).value;
      LazyUntilFirst(u[1..], p);
      forall i | 1 <= i < j + 1 ensures !IsLineTerminator(u[i]) && !OccursAt(u, p, i) {
        assert u[i] == u[1..][i - 1];
        OccursAtTail(u, p, i - 1);
      }
    }
  }

  lemma {:induction false} LazyUntilPrefix(u: string, p: string, k: nat)
    requires LazyUntil(u, p).Some? && LazyUntil(u, p).value + |p| <= k <= |u|
    ensures LazyUntil(u[..k], p) == LazyUntil(u, p)
  {
    var v, j := u[..k], LazyUntil(u, p).value;
    LazyUntilFirst(u, p);
    assert v[j..j + |p|] == u[j..j + |p|];
    forall i | 0 <= i < j ensures !IsLineTerminator(v[i]) && !OccursAt(v, p, i) {
      assert v[i] == u[i];
      if i + |p| <= k {
        assert v[i..i + |p|] == u[i..i + |p|];
      }
    }
    LazyUntilAt(v, p, j);
  }

  /** The lazy `.*?p` stops at the first occurrence of `p` when no line terminator comes before it */
  lemma {:induction false} LazyUntilAt(u: string, p: string, k: nat)
    requires OccursAt(u, p, k)
    requires forall i | 0 <= i < k :: !IsLineTerminator(u[i]) && !OccursAt(u, p, i)
    ensures LazyUntil(u, p) == Some(k)
    decreases k
  {
    if k > 0 {
      assert !OccursAt(u, p, 0);
      OccursAtTail(u, p, k - 1);
      forall i | 0 <= i < k - 1 ensures !IsLineTerminator(u[1..][i]) && !OccursAt(u[1..], p, i) {
        OccursAtTail(u, p, i);
      }
      LazyUntilAt(u[1..], p, k - 1);
    }
  }

  /** A quoted string as `".*?"` or `'.*?'` matches it: same quote at both ends, neither that quote nor a line end inside */
  predicate IsQuotedLiteral(s: string) {
    && |s| >= 2 && IsQuote(s[0]) && s[|s| - 1] == s[0]
    && forall i | 1 <= i < |s| - 1 :: s[i] != s[0] && !IsLineTerminator(s[i])
  }

  // ---------------------------------------------------------------------------------------
  // importsPattern (import-map.ts:4)
  //   /(import\s+?(?:(?:(?:[\w*\s{},\$]*)\s+from\s+?)|))((?:".*?")|(?:'.*?'))([\s]*?(?:;|$|))/g
  // After `import` and one blank, every character the engine may consume before the quote is
  // in the class [\w*\s{},\$], and a quote is not, so whichever alternative succeeds, the quote
  // is the first character after the longest run of class characters. The first alternative
  // succeeds when that run ends in blanks, `from`, blanks (with a blank before `from`); the
  // second when the run is all blanks. The lazy `\s*?` of the last group first tries no blanks,
  // and then `;` before the empty alternative: the third group is ";" exactly when a `;`
  // follows the closing quote.
  // ---------------------------------------------------------------------------------------

  /** The three capture groups of `importsPattern` */
  datatype ImportGroups = ImportGroups(clause: string, quoted: string, terminator: string)

  function Statement(g: ImportGroups): string {
    g.clause + g.quoted + g.terminator
  }

  predicate IsClauseChar(c: char) {
    IsWordChar(c) || IsSpace(c) || c == '*' || c == '{' || c == '}' || c == ',' || c == '$'
  }

  /** `u` ends in blanks, `from`, blanks, with at least one blank on each side of `from` */
  predicate EndsWithFrom(u: string) {
    exists j | 1 <= j && j + 4 < |u| :: IsSpace(u[j - 1]) && OccursAt(u, "from", j) && All(u[j + 4..], IsSpace)
  }

  /** What the clause (the first group, `import` and one blank included) may look like: all blanks, or ending in `from` */
  predicate ClauseShape(clause: string)
    requires |clause| >= 7
  {
    All(clause[6..], IsSpace) || EndsWithFrom(clause[7..])
  }

  /** `import` and one blank */
  predicate ImportKeyword(t: string) {
    |t| > 6 && StartsWith(t, "import") && IsSpace(t[6])
  }

  /** Where the run of clause characters after `import` and one blank ends */
  function ClauseEnd(t: string): (e: nat)
    requires |t| >= 7
    ensures 7 <= e <= |t|
    ensures forall i | 7 <= i < e :: IsClauseChar(t[i])
    ensures e < |t| ==> !IsClauseChar(t[e])
  {
    var n := Span(t[7..], IsClauseChar);
    assert forall i | 7 <= i < |t| :: t[7..][i - 7] == t[i];
    7 + n
  }

  /** `importsPattern` tried at the start of `t` */
  function MatchImport(t: string): Option<Found<ImportGroups>> {
    if !ImportKeyword(t) then None else ImportFrom(t, ClauseEnd(t))
  }

  /** The rest of `importsPattern` once the clause characters after `import` run up to index `e` */
  function ImportFrom(t: string, e: nat): Option<Found<ImportGroups>>
    requires 7 <= e <= |t|
  {
    if e < |t| && IsQuote(t[e]) && ClauseShape(t[..e]) then
      match LazyUntil(t[e + 1..], [t[e]])
      case None => None
      case Some(c) => Some(Closed(t, e, c))
    else None
  }

  /** The match whose quoted specifier opens at `e` and closes `c` characters later, with the `;` after it if there is one */
  function Closed(t: string, e: nat, c: nat): Found<ImportGroups>
    requires e + c + 2 <= |t|
  {
    var q := e + c + 2;
    var terminator := if q < |t| && t[q] == ';' then ";" else "";
    Found(q + |terminator|, ImportGroups(t[..e], t[e..q], terminator))
  }

  /**
   * A match of `importsPattern` is a prefix of the text made of its three groups: a clause
   * starting with `import`, a quoted literal, and an optional `;`.
   */
  lemma MatchImportSpec(t: string)
    requires MatchImport(t).Some?
    ensures 0 < MatchImport(t).value.len <= |t|
    ensures t[..MatchImport(t).value.len] == Statement(MatchImport(t).value.groups)
    ensures StartsWith(MatchImport(t).value.groups.clause, "import")
    ensures IsQuotedLiteral(MatchImport(t).value.groups.quoted)
    ensures MatchImport(t).value.groups.terminator in {"", ";"}
  {
    var e := ClauseEnd(t);
    assert MatchImport(t) == ImportFrom(t, e);
    var c := LazyUntil(t[e + 1..], [t[e]]).value;
    assert MatchImport(t) == Some(Closed(t, e, c));
    ClosedSpec(t, e, c);
    LazyQuoted(t, e, c);
    StartsWithCut(t, "import", e);
  }

  /** The groups Closed reports make up the text up to the end of the match */
  lemma ClosedSpec(t: string, e: nat, c: nat)
    requires e + c + 2 <= |t|
    ensures e < Closed(t, e, c).len <= |t|
    ensures t[..Closed(t, e, c).len] == Statement(Closed(t, e, c).groups)
    ensures Closed(t, e, c).groups.clause == t[..e] && Closed(t, e, c).groups.quoted == t[e..e + c + 2]
    ensures Closed(t, e, c).groups.terminator in {"", ";"}
  {
    var q := e + c + 2;
    if q < |t| && t[q] == ';' {
      assert Closed(t, e, c) == Found(q + 1, ImportGroups(t[..e], t[e..q], ";"));
      assert t[q..q + 1] == ";";
      SplitThree(t, e, q, q + 1);
    } else {
      assert Closed(t, e, c) == Found(q, ImportGroups(t[..e], t[e..q], ""));
      assert t[..q] == t[..e] + t[e..q];
    }
  }

  /** ImportFrom looks no further than the end of the match it finds */
  lemma ImportFromAlone(t: string, e: nat, u: string)
    requires 7 <= e <= |t| && ImportFrom(t, e).Some? && u == t[..ImportFrom(t, e).value.len]
    ensures ImportFrom(u, e) == ImportFrom(t, e)
  {
    var c := LazyUntil(t[e + 1..], [t[e]]).value;
    var n := Closed(t, e, c).len;
    assert u[e] == t[e] && u[..e] == t[..e];
    assert u[e + 1..] == t[e + 1..][..n - e - 1];
    LazyUntilPrefix(t[e + 1..], [t[e]], n - e - 1);
    ClosedAlone(t, e, c, u);
  }

  lemma ClosedAlone(t: string, e: nat, c: nat, u: string)
    requires e + c + 2 <= |t| && u == t[..Closed(t, e, c).len]
    ensures Closed(u, e, c) == Closed(t, e, c)
  {
    var q := e + c + 2;
    assert u[..e] == t[..e] && u[e..q] == t[e..q];
  }

  /** The lazy `q.*?q` from index `e` of `t` matches a quoted literal */
  lemma LazyQuoted(t: string, e: nat, c: nat)
    requires e < |t| && IsQuote(t[e]) && LazyUntil(t[e + 1..], [t[e]]) == Some(c)
    ensures IsQuotedLiteral(t[e..e + c + 2])
  {
    var u := t[e + 1..];
    var s := t[e..e + c + 2];
    LazyUntilFirst(u, [t[e]]);
    forall i | 1 <= i < |s| - 1 ensures s[i] != s[0] && !IsLineTerminator(s[i]) {
      assert s[i] == u[i - 1];
      assert !OccursAt(u, [t[e]], i - 1);
    }
    assert s[|s| - 1] == u[c];
  }

  /** A text cut after its prefix `p` still starts with `p` */
  lemma StartsWithCut(t: string, p: string, n: nat)
    requires StartsWith(t, p) && |p| <= n <= |t|
    ensures StartsWith(t[..n], p)
  {
    assert t[..n][..|p|] == t[..|p|];
  }

  lemma SplitThree(t: string, a: nat, b: nat, n: nat)
    requires a <= b <= n <= |t|
    ensures t[..n] == t[..a] + t[a..b] + t[b..n]
  {
  }

  /** The run of characters satisfying `p` is the same in any text that agrees up to just past its end */
  lemma SpanAgrees(u: string, v: string, p: char -> bool, n: nat)
    requires n == Span(u, p) && n < |u| && n < |v| && u[..n + 1] == v[..n + 1]
    ensures Span(v, p) == n
  {
    assert v[n] == u[n] by { assert v[n] == v[..n + 1][n]; assert u[n] == u[..n + 1][n]; }
    forall i | 0 <= i < n ensures p(v[i]) {
      assert v[i] == v[..n + 1][i];
      assert u[i] == u[..n + 1][i];
    }
  }

  /** The keyword and the clause are found the same in a text cut after the clause */
  lemma ClauseAlone(t: string, u: string)
    requires ImportKeyword(t) && ClauseEnd(t) < |u| <= |t| && u == t[..|u|]
    ensures ImportKeyword(u) && ClauseEnd(u) == ClauseEnd(t)
  {
    var e := ClauseEnd(t);
    StartsWithCut(t, "import", |u|);
    assert u[6] == t[6];
    assert u[7..] == t[7..][..|u| - 7];
    assert t[7..][..e - 6] == u[7..][..e - 6];
    SpanAgrees(t[7..], u[7..], IsClauseChar, e - 7);
  }

  /** A statement matched by `importsPattern` is matched the same way when it stands alone */
  lemma MatchImportAlone(t: string)
    requires MatchImport(t).Some?
    ensures MatchImport(t[..MatchImport(t).value.len]) == MatchImport(t)
  {
    var e := ClauseEnd(t);
    var u := t[..MatchImport(t).value.len];
    assert MatchImport(t) == ImportFrom(t, e);
    ImportFromAlone(t, e, u);
    ClauseAlone(t, u);
  }

  /** A run of characters satisfying `p`, ended by one that does not */
  lemma SpanStops(a: string, b: string, p: char -> bool)
    requires All(a, p) && |b| > 0 && !p(b[0])
    ensures Span(a + b, p) == |a|
  {
    var s := a + b;
    assert s[|a|] == b[0];
    assert forall i | 0 <= i < |a| :: s[i] == a[i];
  }

  /** MatchImport on a text whose clause runs to the quote at `e`, closed `c` characters later and followed by `;` */
  lemma MatchImportTerminated(t: string, e: nat, c: nat)
    requires ImportKeyword(t) && ClauseEnd(t) == e
    requires e < |t| && IsQuote(t[e]) && ClauseShape(t[..e])
    requires LazyUntil(t[e + 1..], [t[e]]) == Some(c)
    requires e + c + 2 < |t| && t[e + c + 2] == ';'
    ensures MatchImport(t) == Some(Found(e + c + 3, ImportGroups(t[..e], t[e..e + c + 2], ";")))
  {
    assert MatchImport(t) == ImportFrom(t, e);
    assert ImportFrom(t, e) == Some(Closed(t, e, c));
    ClosedTerminated(t, e, c);
  }

  lemma ClosedTerminated(t: string, e: nat, c: nat)
    requires e + c + 2 < |t| && t[e + c + 2] == ';'
    ensures Closed(t, e, c) == Found(e + c + 3, ImportGroups(t[..e], t[e..e + c + 2], ";"))
  {
  }

  /** In `import <binding> from <tail>`, the clause characters after `import ` run up to `tail` and the clause ends in `from` */
  lemma FromClause(t: string, binding: string, tail: string)
    requires t == "import " + binding + " from " + tail
    requires All(binding, IsClauseChar) && |tail| > 0 && !IsClauseChar(tail[0])
    ensures ImportKeyword(t) && ClauseEnd(t) == |binding| + 13
    ensures ClauseShape(t[..|binding| + 13])
    ensures t[..|binding| + 13] == "import " + binding + " from " && t[|binding| + 13..] == tail
  {
    assert t[..6] == "import" && t[6] == ' ';
    var a := binding + " from ";
    assert t[7..] == a + tail;
    forall i | 0 <= i < |a| ensures IsClauseChar(a[i]) {
      if i < |binding| {
        assert a[i] == binding[i];
      }
    }
    SpanStops(a, tail, IsClauseChar);
    var v := t[..|binding| + 13][7..];
    assert v == a;
    var j := |binding| + 1;
    assert IsSpace(v[j - 1]) && OccursAt(v, "from", j);
    assert v[j + 4..] == " ";
    assert All(v[j + 4..], IsSpace);
  }

  /** From index `e`, `<q><spec><q>;`: the lazy `.*?q` closes after `spec`, and a `;` follows */
  lemma QuotedThenSemicolon(t: string, e: nat, q: char, spec: string, rest: string)
    requires e <= |t| && t[e..] == [q] + spec + [q] + ";" + rest
    requires forall c | c in spec :: c != q && !IsLineTerminator(c)
    ensures e + |spec| + 2 < |t| && t[e] == q && t[e + |spec| + 2] == ';'
    ensures LazyUntil(t[e + 1..], [t[e]]) == Some(|spec|)
    ensures t[e..e + |spec| + 2] == [q] + spec + [q]
  {
    var u := t[e..];
    assert u[0] == q;
    var w := t[e + 1..];
    assert w == u[1..];
    assert w == spec + [q] + (";" + rest);
    assert OccursAt(w, [q], |spec|);
    forall i | 0 <= i < |spec| ensures !IsLineTerminator(w[i]) && !OccursAt(w, [q], i) {
      assert w[i] == spec[i];
      assert spec[i] in spec;
    }
    LazyUntilAt(w, [q], |spec|);
    assert u[|spec| + 2] == ';';
    assert u[..|spec| + 2] == [q] + spec + [q];
    assert t[e] == u[0] && t[e + |spec| + 2] == u[|spec| + 2];
    assert t[e..e + |spec| + 2] == u[..|spec| + 2];
  }

  /**
   * `import <binding> from <q><spec><q>;` is matched as one statement whatever follows it, for
   * any binding made of the characters a clause may hold (`x`, `* as x`, `{ a, b }`, ...).
   */
  lemma MatchImportFrom(t: string, binding: string, q: char, spec: string, rest: string)
    requires All(binding, IsClauseChar) && IsQuote(q)
    requires forall c | c in spec :: c != q && !IsLineTerminator(c)
    requires t == "import " + binding + " from " + ([q] + spec + [q] + ";" + rest)
    ensures MatchImport(t).Some? && MatchImport(t).value.len == |t| - |rest|
    ensures MatchImport(t).value.groups == ImportGroups("import " + binding + " from ", [q] + spec + [q], ";")
  {
    var tail := [q] + spec + [q] + ";" + rest;
    var e := |binding| + 13;
    assert |t| - |rest| == e + |spec| + 3;
    FromClause(t, binding, tail);
    QuotedThenSemicolon(t, e, q, spec, rest);
    TerminatedGroups(t, e, "import " + binding + " from ", [q] + spec + [q]);
  }

  /** MatchImportTerminated, with the clause and the quoted specifier named */
  lemma TerminatedGroups(t: string, e: nat, clause: string, quoted: string)
    requires ImportKeyword(t) && ClauseEnd(t) == e && e < |t| && IsQuote(t[e]) && ClauseShape(t[..e])
    requires |quoted| >= 2 && LazyUntil(t[e + 1..], [t[e]]) == Some(|quoted| - 2)
    requires e + |quoted| < |t| && t[e + |quoted|] == ';'
    requires t[..e] == clause && t[e..e + |quoted|] == quoted
    ensures MatchImport(t) == Some(Found(e + |quoted| + 1, ImportGroups(clause, quoted, ";")))
  {
    MatchImportTerminated(t, e, |quoted| - 2);
  }

  // ---------------------------------------------------------------------------------------
  // styleimportsPattern (import-map.ts:57)
  //   /(?:@import\s+?)((?:".*?")|(?:'.*?')|(?:url\('.*?'\))|(?:url\(".*?"\)))(.*)?;/g
  // No alternative of the first group starts with a blank, so the lazy `\s+?` ends up taking all
  // the blanks after `@import`. Which alternative applies is fixed by the next characters. The
  // greedy `(.*)?` runs to the end of the line and gives back until a `;` follows: it stops at
  // the last `;` of the line. Taking a later closing quote cannot help, because no `;` can be
  // found on the line after a later quote when none is found after the first, so the lazy
  // `.*?` closes at the first closing quote. When `(.*)?` would match nothing, the group does
  // not take part and the callback receives `undefined`; it is modelled as "", which `?.trim()`
  // treats the same way.
  // ---------------------------------------------------------------------------------------

  /** The capture groups of `styleimportsPattern`: the imported target and what follows it up to the `;` */
  datatype StyleGroups = StyleGroups(target: string, media: string)

  /** Length of the first group (a quoted string or `url(...)`) at the start of `u` */
  function TargetLength(u: string): (r: Option<nat>)
    ensures r.Some? ==> 2 <= r.value <= |u|
  {
    if |u| > 0 && IsQuote(u[0]) then
      match LazyUntil(u[1..], [u[0]])
      case None => None
      case Some(c) => Some(c + 2)
    else if StartsWith(u, "url('") then
      match LazyUntil(u[5..], "')")
      case None => None
      case Some(c) => Some(c + 7)
    else if StartsWith(u, "url(\"") then
      match LazyUntil(u[5..], "\")")
      case None => None
      case Some(c) => Some(c + 7)
    else None
  }

  /** The last index of `c` in `s` */
  function LastIndexOf(s: string, c: char): (r: Option<nat>)
    ensures r.Some? ==> r.value < |s| && s[r.value] == c && forall i | r.value < i < |s| :: s[i] != c
    ensures r.None? ==> c !in s
  {
    if |s| == 0 then None
    else if s[|s| - 1] == c then Some(|s| - 1)
    else
      var r := LastIndexOf(s[..|s| - 1], c);
      assert s == s[..|s| - 1] + [s[|s| - 1]];
      r
  }

  predicate NotLineTerminator(c: char) {
    !IsLineTerminator(c)
  }

  /** `@import` and at least one blank */
  predicate StyleKeyword(t: string) {
    |t| > 7 && StartsWith(t, "@import") && IsSpace(t[7])
  }

  /** Where the first group starts: after `@import` and all the blanks that follow it */
  function TargetStart(t: string): (p: nat)
    requires |t| >= 7
    ensures 7 <= p <= |t|
  {
    7 + Span(t[7..], IsSpace)
  }

  /** `styleimportsPattern` tried at the start of `t` */
  function MatchStyleImport(t: string): Option<Found<StyleGroups>> {
    if !StyleKeyword(t) then None
    else
      var p := TargetStart(t);
      match TargetLength(t[p..])
      case None => None
      case Some(g) => StyleMedia(t, p, p + g)
  }

  /** `(.*)?;` from index `a`, the first group being `t[p..a]`: up to the last `;` of the line */
  function StyleMedia(t: string, p: nat, a: nat): Option<Found<StyleGroups>>
    requires p <= a <= |t|
  {
    var line := a + Span(t[a..], NotLineTerminator);
    match LastIndexOf(t[a..line], ';')
    case None => None
    case Some(k) => Some(Found(a + k + 1, StyleGroups(t[p..a], t[a..a + k])))
  }

  /** What StyleMedia finds ends in a `;` */
  lemma StyleMediaSemicolon(t: string, p: nat, a: nat)
    requires p <= a <= |t| && StyleMedia(t, p, a).Some?
    ensures a < StyleMedia(t, p, a).value.len <= |t|
    ensures t[StyleMedia(t, p, a).value.len - 1] == ';'
    ensures StyleMedia(t, p, a).value.groups == StyleGroups(t[p..a], t[a..StyleMedia(t, p, a).value.len - 1])
  {
    var line := a + Span(t[a..], NotLineTerminator);
    var k := LastIndexOf(t[a..line], ';').value;
    assert t[a..line][k] == t[a + k];
  }

  /** The text up to a `;` at `n - 1` ends with the pieces from `p` to `a`, from `a` to the `;`, and the `;` */
  lemma EndsWithPieces(t: string, p: nat, a: nat, n: nat)
    requires p <= a < n <= |t| && t[n - 1] == ';'
    ensures EndsWith(t[..n], t[p..a] + t[a..n - 1] + ";")
  {
    var w := t[p..a] + t[a..n - 1] + ";";
    assert w == t[p..n];
    assert t[..n][n - |w|..] == t[p..n];
  }

  /** A match of `styleimportsPattern` starts with `@import` and ends with its two groups and a `;` */
  lemma MatchStyleImportSpec(t: string)
    requires MatchStyleImport(t).Some?
    ensures 0 < MatchStyleImport(t).value.len <= |t| && StartsWith(t, "@import")
    ensures EndsWith(t[..MatchStyleImport(t).value.len],
      MatchStyleImport(t).value.groups.target + MatchStyleImport(t).value.groups.media + ";")
  {
    assert StyleKeyword(t);
    var p := TargetStart(t);
    assert TargetLength(t[p..]).Some?;
    var a := p + TargetLength(t[p..]).value;
    assert MatchStyleImport(t) == StyleMedia(t, p, a);
    StyleMediaShape(t, p, a);
  }

  lemma StyleMediaShape(t: string, p: nat, a: nat)
    requires p <= a <= |t| && StyleMedia(t, p, a).Some?
    ensures 0 < StyleMedia(t, p, a).value.len <= |t|
    ensures EndsWith(t[..StyleMedia(t, p, a).value.len],
      StyleMedia(t, p, a).value.groups.target + StyleMedia(t, p, a).value.groups.media + ";")
  {
    StyleMediaSemicolon(t, p, a);
    EndsWithPieces(t, p, a, StyleMedia(t, p, a).value.len);
  }

  /** `<q><x><q>` at the start of `u`: the lazy `.*?q` closes right after `x` */
  lemma QuotedClose(u: string, q: char, x: string, rest: string)
    requires u == [q] + x + [q] + rest
    requires forall c | c in x :: c != q && !IsLineTerminator(c)
    ensures LazyUntil(u[1..], [q]) == Some(|x|)
  {
    var w := u[1..];
    assert w == x + [q] + rest;
    assert w[|x|..|x| + 1] == [q];
    forall i | 0 <= i < |x| ensures !IsLineTerminator(w[i]) && !OccursAt(w, [q], i) {
      assert w[i] == x[i];
      assert x[i] in x;
    }
    LazyUntilAt(w, [q], |x|);
  }

  /**
   * `@import <q><x><q><media>;` on one line is matched whole: the first group is the quoted
   * target and the second what follows it up to the `;`.
   */
  lemma MatchStyleQuoted(t: string, q: char, x: string, media: string)
    requires IsQuote(q) && forall c | c in x :: c != q && !IsLineTerminator(c)
    requires forall c | c in media :: c != ';' && !IsLineTerminator(c)
    requires t == "@import " + ([q] + x + [q] + (media + ";"))
    ensures MatchStyleImport(t) == Some(Found(|t|, StyleGroups([q] + x + [q], media)))
  {
    StyleTarget(t, q, x, media + ";");
    var a := |x| + 10;
    assert MatchStyleImport(t) == StyleMedia(t, 8, a);
    assert t[a..] == media + ";";
    StyleMediaToEnd(t, 8, a, media);
    assert t[8..a] == [q] + x + [q];
  }

  /** After `@import `, a quoted target `<q><x><q>` */
  lemma StyleTarget(t: string, q: char, x: string, rest: string)
    requires IsQuote(q) && forall c | c in x :: c != q && !IsLineTerminator(c)
    requires t == "@import " + ([q] + x + [q] + rest)
    ensures StyleKeyword(t) && TargetStart(t) == 8 && TargetLength(t[8..]) == Some(|x| + 2)
  {
    var u := [q] + x + [q] + rest;
    assert t[..7] == "@import" && t[7] == ' ';
    assert t[7..] == " " + u;
    SpanStops(" ", u, IsSpace);
    assert t[8..] == u;
    QuotedClose(u, q, x, rest);
  }

  /**
   * `@import url(<q><x><q>)<media>;` on one line is matched whole: the first group is the
   * `url(...)` target and the second what follows it up to the `;`.
   */
  lemma MatchStyleUrl(t: string, q: char, x: string, media: string)
    requires IsQuote(q) && forall c | c in x :: !IsQuote(c) && !IsLineTerminator(c)
    requires forall c | c in media :: c != ';' && !IsLineTerminator(c)
    requires t == "@import " + ("url(" + ([q] + x + [q]) + ")" + (media + ";"))
    ensures MatchStyleImport(t) == Some(Found(|t|, StyleGroups("url(" + ([q] + x + [q]) + ")", media)))
  {
    StyleUrlTarget(t, q, x, media + ";");
    var a := |x| + 15;
    assert MatchStyleImport(t) == StyleMedia(t, 8, a);
    assert t[a..] == media + ";";
    StyleMediaToEnd(t, 8, a, media);
    assert t[8..a] == "url(" + ([q] + x + [q]) + ")";
  }

  /** After `@import `, a target `url(<q><x><q>)` */
  lemma StyleUrlTarget(t: string, q: char, x: string, rest: string)
    requires IsQuote(q) && forall c | c in x :: !IsQuote(c) && !IsLineTerminator(c)
    requires t == "@import " + ("url(" + ([q] + x + [q]) + ")" + rest)
    ensures StyleKeyword(t) && TargetStart(t) == 8 && TargetLength(t[8..]) == Some(|x| + 7)
  {
    var u := "url(" + ([q] + x + [q]) + ")" + rest;
    assert t[..7] == "@import" && t[7] == ' ';
    assert t[7..] == " " + u;
    SpanStops(" ", u, IsSpace);
    assert t[8..] == u;
    UrlClose(u, q, x, rest);
  }

  /** The lazy `.*?` of a `url(` target closes at the quote and `)` right after `x` */
  lemma UrlClose(u: string, q: char, x: string, rest: string)
    requires IsQuote(q) && forall c | c in x :: !IsQuote(c) && !IsLineTerminator(c)
    requires u == "url(" + ([q] + x + [q]) + ")" + rest
    ensures TargetLength(u) == Some(|x| + 7)
  {
    var w := u[5..];
    var close := [q, ')'];
    assert w == x + close + rest;
    assert w[|x|..|x| + 2] == close;
    forall i | 0 <= i < |x| ensures !IsLineTerminator(w[i]) && !OccursAt(w, close, i) {
      assert w[i] == x[i] && x[i] in x;
      if i + 2 <= |w| {
        assert w[i..i + 2][0] == w[i];
      }
    }
    LazyUntilAt(w, close, |x|);
    assert u[..5] == "url(" + [q];
    assert !IsQuote(u[0]);
    if q == '\'' {
      assert StartsWith(u, "url('") && close == "')";
    } else {
      assert u[4] == '"';
      assert !StartsWith(u, "url('") && StartsWith(u, "url(\"") && close == "\")";
    }
  }

  /** The rest of the text after the target is `<media>;` with no other `;` and no line end: all of it is the match */
  lemma StyleMediaToEnd(t: string, p: nat, a: nat, media: string)
    requires p <= a <= |t| && t[a..] == media + ";"
    requires forall c | c in media :: c != ';' && !IsLineTerminator(c)
    ensures StyleMedia(t, p, a) == Some(Found(|t|, StyleGroups(t[p..a], media)))
  {
    var m := media + ";";
    forall i | 0 <= i < |m| ensures NotLineTerminator(m[i]) {
      if i < |media| {
        assert m[i] == media[i];
        assert media[i] in media;
      }
    }
    assert Span(m, NotLineTerminator) == |m|;
    assert t[a..|t|] == m;
    assert LastIndexOf(m, ';') == Some(|media|);
    assert t[a..a + |media|] == media;
  }

  // ---------------------------------------------------------------------------------------
  // requirePattern (import-map.ts:76)
  //   /require(?:\s*)\((?:\s*)('(.*?)'|"(.*?)")(?:\s*)\)/g
  // Neither `(` nor a quote is a blank, so both `\s*` take every blank. The lazy `.*?` closes at
  // the first matching quote (on the same line) that only blanks separate from a `)`; the
  // quotes and blanks it passes over on the way belong to the id.
  // ---------------------------------------------------------------------------------------

  /** `\s*\)` at the start of `v`: the index of the `)` that follows only blanks */
  function ParenAfterBlanks(v: string): (r: Option<nat>)
    ensures r.Some? ==> r.value < |v| && v[r.value] == ')'
  {
    if |v| == 0 then None
    else if v[0] == ')' then Some(0)
    else if !IsSpace(v[0]) then None
    else
      match ParenAfterBlanks(v[1..])
      case None => None
      case Some(i) => Some(i + 1)
  }

  /** A `q` at index `i` of `u` that only blanks separate from a `)` */
  predicate ClosesAt(u: string, q: char, i: nat) {
    i < |u| && u[i] == q && ParenAfterBlanks(u[i + 1..]).Some?
  }

  /** No line terminator comes before index `i` of `u` (`.` does not match one) */
  predicate OnFirstLine(u: string, i: nat)
    requires i <= |u|
  {
    forall k | 0 <= k < i :: !IsLineTerminator(u[k])
  }

  /**
   * The lazy `.*?q\s*\)`: index in `u` of the closing quote, which is the first `q` followed by
   * blanks and a `)` with no line terminator before it; None when there is no such `q`.
   */
  function CloseCall(u: string, q: char): (r: Option<nat>)
    ensures r.Some? ==> ClosesAt(u, q, r.value) && OnFirstLine(u, r.value)
    ensures r.Some? ==> forall i | 0 <= i < r.value :: !ClosesAt(u, q, i)
    ensures r.None? ==> forall i | 0 <= i < |u| && ClosesAt(u, q, i) :: !OnFirstLine(u, i)
    decreases |u|
  {
    if ClosesAt(u, q, 0) then Some(0)
    else if |u| == 0 || IsLineTerminator(u[0]) then None
    else
      var r := CloseCall(u[1..], q);
      CloseCallLift(u, q, r);
      match r
      case None => None
      case Some(c) => Some(c + 1)
  }

  /** What the search on `u[1..]` found carries over to `u`, shifted by one */
  lemma CloseCallLift(u: string, q: char, r: Option<nat>)
    requires |u| > 0 && !IsLineTerminator(u[0]) && !ClosesAt(u, q, 0)
    requires r.Some? ==> ClosesAt(u[1..], q, r.value) && OnFirstLine(u[1..], r.value)
    requires r.Some? ==> forall i | 0 <= i < r.value :: !ClosesAt(u[1..], q, i)
    requires r.None? ==> forall i | 0 <= i < |u| - 1 && ClosesAt(u[1..], q, i) :: !OnFirstLine(u[1..], i)
    ensures r.Some? ==> ClosesAt(u, q, r.value + 1) && OnFirstLine(u, r.value + 1)
    ensures r.Some? ==> forall i | 0 <= i < r.value + 1 :: !ClosesAt(u, q, i)
    ensures r.None? ==> forall i | 0 <= i < |u| && ClosesAt(u, q, i) :: !OnFirstLine(u, i)
  {
    CloseCallShift(u, q);
    if r.None? {
      forall i | 0 <= i < |u| && ClosesAt(u, q, i) ensures !OnFirstLine(u, i) {
        assert i >= 1;
        assert ClosesAt(u[1..], q, i - 1);
      }
    }
  }

  /** Dropping the first character of `u` shifts every closing quote and every line prefix by one */
  lemma CloseCallShift(u: string, q: char)
    requires |u| > 0 && !IsLineTerminator(u[0])
    ensures forall i | 1 <= i < |u| :: ClosesAt(u, q, i) == ClosesAt(u[1..], q, i - 1)
    ensures forall i | 1 <= i <= |u| :: OnFirstLine(u, i) == OnFirstLine(u[1..], i - 1)
  {
    forall i | 1 <= i < |u| ensures ClosesAt(u, q, i) == ClosesAt(u[1..], q, i - 1) {
      assert u[1..][i - 1] == u[i] && u[1..][i..] == u[i + 1..];
    }
    forall i | 1 <= i <= |u| ensures OnFirstLine(u, i) == OnFirstLine(u[1..], i - 1) {
      assert forall k | 1 <= k < i :: u[1..][k - 1] == u[k];
    }
  }

  /** `require\s*\(\s*` at the start of `t`: the index just past it */
  function RequireOpen(t: string): (k: Option<nat>)
    ensures k.Some? ==> 7 < k.value <= |t| && StartsWith(t, "require")
  {
    if !StartsWith(t, "require") then None
    else
      var j := 7 + Span(t[7..], IsSpace);
      if j == |t| || t[j] != '(' then None
      else Some(j + 1 + Span(t[j + 1..], IsSpace))
  }

  /** `requirePattern` tried at the start of `t`; the group reported is the first (the quoted id) */
  function MatchRequire(t: string): Option<Found<string>> {
    match RequireOpen(t)
    case None => None
    case Some(k) =>
      if k == |t| || !IsQuote(t[k]) then None
      else
        match CloseCall(t[k + 1..], t[k])
        case None => None
        case Some(c) => Some(RequireClosed(t, k, c))
  }

  /** The match whose id opens at `k` and closes `c` characters later */
  function RequireClosed(t: string, k: nat, c: nat): (f: Found<string>)
    requires k < |t| && CloseCall(t[k + 1..], t[k]) == Some(c)
    ensures f.len <= |t|
  {
    assert t[k + 1..][c + 1..] == t[k + c + 2..];
    Found(k + c + 3 + ParenAfterBlanks(t[k + c + 2..]).value, t[k..k + c + 2])
  }

  /** A match of `requirePattern` starts with `require`; its group is a string opened and closed by the same quote */
  lemma MatchRequireSpec(t: string)
    requires MatchRequire(t).Some?
    ensures 0 < MatchRequire(t).value.len <= |t| && StartsWith(t, "require")
    ensures |MatchRequire(t).value.groups| >= 2 && IsQuote(MatchRequire(t).value.groups[0])
    ensures MatchRequire(t).value.groups[|MatchRequire(t).value.groups| - 1] == MatchRequire(t).value.groups[0]
  {
    var k := RequireOpen(t).value;
    var c := CloseCall(t[k + 1..], t[k]).value;
    RequireClosedQuoted(t, k, c);
    assert MatchRequire(t).value == RequireClosed(t, k, c);
  }

  /** The id of a call is quoted at both ends with the quote it opens with */
  lemma RequireClosedQuoted(t: string, k: nat, c: nat)
    requires k < |t| && CloseCall(t[k + 1..], t[k]) == Some(c)
    ensures var g := RequireClosed(t, k, c).groups;
      |g| >= 2 && g[0] == t[k] && g[|g| - 1] == t[k] && 0 < RequireClosed(t, k, c).len
  {
    assert t[k + 1..][c] == t[k + c + 1];
  }

  /** The lazy `.*?q\s*\)` closes after `x` when a `)` follows the `q` and nothing in `x` is a line end or a closing quote */
  lemma CloseCallAt(u: string, q: char, x: string, tail: string)
    requires u == x + [q] + tail && ParenAfterBlanks(tail).Some?
    requires forall i | 0 <= i < |x| :: !IsLineTerminator(x[i]) && !ClosesAt(u, q, i)
    ensures CloseCall(u, q) == Some(|x|)
  {
    assert u[|x|] == q && u[|x| + 1..] == tail;
    assert ClosesAt(u, q, |x|);
    assert OnFirstLine(u, |x|) by {
      assert forall k | 0 <= k < |x| :: u[k] == x[k];
    }
  }

  /** In particular when `x` holds no `q` and no line end */
  lemma CloseCallQuoteFree(u: string, q: char, x: string, tail: string)
    requires u == x + [q] + tail && ParenAfterBlanks(tail).Some?
    requires forall c | c in x :: c != q && !IsLineTerminator(c)
    ensures CloseCall(u, q) == Some(|x|)
  {
    forall i | 0 <= i < |x| ensures !IsLineTerminator(x[i]) && !ClosesAt(u, q, i) {
      assert u[i] == x[i] && x[i] in x;
    }
    CloseCallAt(u, q, x, tail);
  }

  /** `require(` directly followed by a non-blank opens a call whose argument starts at index 8 */
  lemma RequireOpenDirect(t: string, u: string)
    requires t == "require(" + u && |u| > 0 && !IsSpace(u[0])
    ensures RequireOpen(t) == Some(8)
  {
    assert t[..7] == "require" && t[7] == '(';
    assert t[7..][0] == '(' && t[8..] == u;
  }

  /** `require(<q><x><q>)` is matched as one call, whatever follows it; the group is the quoted id */
  lemma MatchRequireCall(t: string, q: char, x: string, rest: string)
    requires IsQuote(q) && forall c | c in x :: c != q && !IsLineTerminator(c)
    requires t == "require(" + ([q] + x + [q] + ")") + rest
    ensures MatchRequire(t) == Some(Found(|x| + 11, [q] + x + [q]))
  {
    var tail := ")" + rest;
    RequireCallSlices(t, q, x, rest);
    assert ParenAfterBlanks(tail) == Some(0);
    CloseCallQuoteFree(t[9..], q, x, tail);
    assert MatchRequire(t) == Some(RequireClosed(t, 8, |x|));
  }

  lemma RequireCallSlices(t: string, q: char, x: string, rest: string)
    requires IsQuote(q) && t == "require(" + ([q] + x + [q] + ")") + rest
    ensures RequireOpen(t) == Some(8) && |t| > |x| + 10 && t[8] == q
    ensures t[9..] == x + [q] + (")" + rest) && t[|x| + 10..] == ")" + rest
    ensures t[8..|x| + 10] == [q] + x + [q]
  {
    RequireOpenDirect(t, [q] + x + [q] + ")" + rest);
    CallSlices(t, "require(", q, x, rest);
  }

  /** The pieces of `<a><q><x><q>)<rest>` for an `a` of length 8 */
  lemma CallSlices(t: string, a: string, q: char, x: string, rest: string)
    requires |a| == 8 && t == a + ([q] + x + [q] + ")") + rest
    ensures |t| > |x| + 10 && t[8] == q
    ensures t[9..] == x + [q] + (")" + rest) && t[|x| + 10..] == ")" + rest
    ensures t[8..|x| + 10] == [q] + x + [q]
  {
    var v := t[8..];
    assert v == [q] + (x + [q] + (")" + rest));
    assert t[9..] == v[1..];
    assert t[|x| + 10..] == v[|x| + 2..];
    assert t[8..|x| + 10] == v[..|x| + 2];
  }

  // ---------------------------------------------------------------------------------------
  // /\b(require|module|exports)\b/ (import-map.ts:75)
  // Each word starts and ends with a word character, so the boundaries mean: no word character
  // just before it, and none just after it.
  // ---------------------------------------------------------------------------------------

  const CjsWords: seq<string> := ["require", "module", "exports"]

  /** `w` occurs at `i` as a whole word */
  predicate WordAt(s: string, w: string, i: nat) {
    && OccursAt(s, w, i)
    && (i == 0 || !IsWordChar(s[i - 1]))
    && (i + |w| == |s| || !IsWordChar(s[i + |w|]))
  }

  /** `/\b(require|module|exports)\b/.test(s)` */
  predicate HasCjsToken(s: string) {
    exists i, w | 0 <= i <= |s| && w in CjsWords :: WordAt(s, w, i)
  }
}
