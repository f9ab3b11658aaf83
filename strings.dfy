/** The JavaScript string operations import-map.ts is built from, over `string` (a `seq<char>`). */
module JsStrings {

  datatype Option<+T> = None | Some(value: T)

  /** `s.startsWith(p)` */
  predicate StartsWith(s: string, p: string) {
    |p| <= |s| && s[..|p|] == p
  }

  predicate EndsWith(s: string, p: string) {
    |p| <= |s| && s[|s| - |p|..] == p
  }

  /** `p` occurs in `s` at index `i` */
  predicate OccursAt(s: string, p: string, i: nat) {
    i + |p| <= |s| && s[i..i + |p|] == p
  }

  /** `\s` in a regular expression: WhiteSpace and LineTerminator, which is also what `trim` removes */
  predicate IsSpace(c: char) {
    || c == '\t' || c == '\n' || c == '\U{0B}' || c == '\U{0C}' || c == '\r' || c == ' '
    || c == '\U{A0}' || c == '\U{1680}' || '\U{2000}' <= c <= '\U{200A}'
    || c == '\U{2028}' || c == '\U{2029}' || c == '\U{202F}' || c == '\U{205F}'
    || c == '\U{3000}' || c == '\U{FEFF}'
  }

  /** The characters `.` in a regular expression does not match */
  predicate IsLineTerminator(c: char) {
    c == '\n' || c == '\r' || c == '\U{2028}' || c == '\U{2029}'
  }

  /** `\w` in a regular expression */
  predicate IsWordChar(c: char) {
    'a' <= c <= 'z' || 'A' <= c <= 'Z' || '0' <= c <= '9' || c == '_'
  }

  predicate IsQuote(c: char) {
    c == '"' || c == '\''
  }

  predicate All(s: string, p: char -> bool) {
    forall i | 0 <= i < |s| :: p(s[i])
  }

  /** Length of the longest prefix of `s` whose characters all satisfy `p` (a greedy `[...]*`) */
  function Span(s: string, p: char -> bool): (n: nat)
    ensures n <= |s|
    ensures forall i | 0 <= i < n :: p(s[i])
    ensures n < |s| ==> !p(s[n])
  {
    if |s| == 0 || !p(s[0]) then 0 else 1 + Span(s[1..], p)
  }

  /** `s.indexOf(p)`: the first index at which `p` occurs */
  function IndexOf(s: string, p: string): (r: Option<nat>)
    ensures r.Some? ==> OccursAt(s, p, r.value)
    ensures r.Some? ==> forall j | 0 <= j < r.value :: !OccursAt(s, p, j)
    ensures r.None? ==> forall j | 0 <= j <= |s| :: !OccursAt(s, p, j)
    decreases |s|
  {
    if OccursAt(s, p, 0) then Some(0)
    else if |s| == 0 then None
    else
      var r := IndexOf(s[1..], p);
      forall j | 1 <= j <= |s| ensures OccursAt(s, p, j) == OccursAt(s[1..], p, j - 1) {
        OccursAtTail(s, p, j - 1);
      }
      match r
      case None => None
      case Some(i) => Some(i + 1)
  }

  lemma OccursAtTail(s: string, p: string, j: nat)
    requires j < |s|
    ensures OccursAt(s, p, j + 1) == OccursAt(s[1..], p, j)
  {
    if j + 1 + |p| <= |s| {
      assert s[j + 1..j + 1 + |p|] == s[1..][j..j + |p|];
    }
  }

  predicate Contains(s: string, p: string) {
    IndexOf(s, p).Some?
  }

  /** `p` is first found right after `a` when `b` starts with it and its first character is not in `a` */
  lemma IndexOfAfter(a: string, b: string, p: string)
    requires |p| > 0 && p[0] !in a && StartsWith(b, p)
    ensures IndexOf(a + b, p) == Some(|a|)
  {
    var s := a + b;
    assert s[|a|..|a| + |p|] == b[..|p|];
    assert OccursAt(s, p, |a|);
    forall j | 0 <= j < |a| ensures !OccursAt(s, p, j) {
      assert s[j] == a[j];
    }
  }

  /** `p` is first found right after `a` when `b` starts with it, `a` does not contain it, and the last character of `a` is not in it */
  lemma IndexOfAfterLast(a: string, b: string, p: string)
    requires |a| > 0 && |p| > 0 && !Contains(a, p) && a[|a| - 1] !in p && StartsWith(b, p)
    ensures IndexOf(a + b, p) == Some(|a|)
  {
    var s := a + b;
    assert s[|a|..|a| + |p|] == b[..|p|];
    assert OccursAt(s, p, |a|);
    forall j | 0 <= j < |a| ensures !OccursAt(s, p, j) {
      if j + |p| <= |a| {
        assert s[j..j + |p|] == a[j..j + |p|];
        assert !OccursAt(a, p, j);
      } else {
        assert s[j..j + |p|][|a| - 1 - j] == s[|a| - 1] == a[|a| - 1];
        assert p[|a| - 1 - j] in p;
      }
    }
  }

  lemma OccursAtContains(s: string, p: string, i: nat)
    requires OccursAt(s, p, i)
    ensures Contains(s, p)
  {
  }

  /** What contains `t` contains everything `t` contains */
  lemma ContainsTrans(s: string, t: string, p: string)
    requires Contains(s, t) && Contains(t, p)
    ensures Contains(s, p)
  {
    var i := IndexOf(s, t).value;
    var j := IndexOf(t, p).value;
    OccursAtTrans(s, t, p, i, j);
    OccursAtContains(s, p, i + j);
  }

  lemma OccursAtTrans(s: string, t: string, p: string, i: nat, j: nat)
    requires OccursAt(s, t, i) && OccursAt(t, p, j)
    ensures OccursAt(s, p, i + j)
  {
    assert s[i..i + |t|] == t && t[j..j + |p|] == p;
    forall k | 0 <= k < |p| ensures s[i + j + k] == p[k] {
      assert s[i + j + k] == s[i..i + |t|][j + k];
      assert p[k] == t[j..j + |p|][k];
    }
    assert s[i + j..i + j + |p|] == p;
  }

  /** A concatenation contains each of its parts */
  lemma ContainsParts(a: string, b: string)
    ensures Contains(a + b, a) && Contains(a + b, b)
  {
    assert (a + b)[..|a|] == a;
    assert (a + b)[|a|..|a| + |b|] == b;
    OccursAtContains(a + b, a, 0);
    OccursAtContains(a + b, b, |a|);
  }

  /**
   * The text a replacement string stands for in `s.replace(pattern, replacement)` when the
   * pattern is a string (so there are no capture groups): `$$`, `$&`, `` $` `` and `$'` are
   * expanded, every other `$` is kept as it is.
   */
  function Substitution(repl: string, matched: string, before: string, after: string): string
    decreases |repl|
  {
    if |repl| == 0 then ""
    else if |repl| >= 2 && repl[0] == '$' && repl[1] in "$&`'" then
      var expanded :=
        if repl[1] == '$' then "$"
        else if repl[1] == '&' then matched
        else if repl[1] == '`' then before
        else after;
      expanded + Substitution(repl[2..], matched, before, after)
    else
      [repl[0]] + Substitution(repl[1..], matched, before, after)
  }

  /** A replacement without `$` stands for itself */
  lemma {:induction false} SubstitutionPlain(repl: string, matched: string, before: string, after: string)
    requires '$' !in repl
    ensures Substitution(repl, matched, before, after) == repl
    decreases |repl|
  {
    if |repl| > 0 {
      assert repl[0] != '$';
      SubstitutionPlain(repl[1..], matched, before, after);
      assert repl == [repl[0]] + repl[1..];
    }
  }

  /** `s.replace(p, repl)` with a string pattern: only the first occurrence of `p` is replaced */
  function ReplaceFirst(s: string, p: string, repl: string): string {
    match IndexOf(s, p)
    case None => s
    case Some(i) => s[..i] + Substitution(repl, p, s[..i], s[i + |p|..]) + s[i + |p|..]
  }

  /**
   * With a replacement free of `$`, `s.replace(p, repl)` keeps a text without `p`, and otherwise
   * puts `repl` in place of the first occurrence of `p`, keeping what comes before and after it.
   */
  lemma ReplaceFirstPlain(s: string, p: string, repl: string)
    requires '$' !in repl
    ensures !Contains(s, p) ==> ReplaceFirst(s, p, repl) == s
    ensures Contains(s, p) ==>
      var i := IndexOf(s, p).value;
      ReplaceFirst(s, p, repl) == s[..i] + repl + s[i + |p|..]
  {
    if Contains(s, p) {
      var i := IndexOf(s, p).value;
      SubstitutionPlain(repl, p, s[..i], s[i + |p|..]);
    }
  }

  /** `s.replace(/p/g, '')` for a literal pattern `p`: every occurrence, scanning left to right, removed */
  function RemoveAll(s: string, p: string): (r: string)
    ensures |r| <= |s|
    decreases |s|
  {
    if |p| == 0 || |s| == 0 then s
    else if OccursAt(s, p, 0) then RemoveAll(s[|p|..], p)
    else [s[0]] + RemoveAll(s[1..], p)
  }

  /** `s.replace(/"/g, '').replace(/'/g, '')` */
  function StripQuotes(s: string): string {
    RemoveAll(RemoveAll(s, "\""), "'")
  }

  lemma {:induction false} RemoveCharSpec(s: string, c: char)
    ensures c !in RemoveAll(s, [c])
    ensures forall x | x != c :: (x in RemoveAll(s, [c]) <==> x in s)
    ensures c !in s ==> RemoveAll(s, [c]) == s
    decreases |s|
  {
    if |s| > 0 {
      RemoveCharSpec(s[1..], c);
      assert s == [s[0]] + s[1..];
      if OccursAt(s, [c], 0) {
        assert s[0] == c;
      } else {
        assert s[0] != c;
      }
    }
  }

  lemma {:induction false} RemoveCharConcat(a: string, b: string, c: char)
    ensures RemoveAll(a + b, [c]) == RemoveAll(a, [c]) + RemoveAll(b, [c])
    decreases |a|
  {
    if |a| > 0 {
      RemoveCharConcat(a[1..], b, c);
      assert (a + b)[1..] == a[1..] + b;
      assert OccursAt(a + b, [c], 0) == OccursAt(a, [c], 0);
    } else {
      assert a + b == b;
    }
  }

  /** StripQuotes leaves no quote behind, keeps every other character, and is the identity on quote-free text */
  lemma StripQuotesSpec(s: string)
    ensures forall x | x in StripQuotes(s) :: !IsQuote(x)
    ensures forall x | !IsQuote(x) :: (x in StripQuotes(s) <==> x in s)
    ensures (forall x | x in s :: !IsQuote(x)) ==> StripQuotes(s) == s
  {
    RemoveCharSpec(s, '"');
    RemoveCharSpec(RemoveAll(s, "\""), '\'');
  }

  /** Removing the quotes around a quote-free text gives the text back */
  lemma StripQuotesQuoted(q: char, x: string)
    requires IsQuote(q)
    requires forall c | c in x :: !IsQuote(c)
    ensures StripQuotes([q] + x + [q]) == x
  {
    RemoveCharConcat([q] + x, [q], '"');
    RemoveCharConcat([q], x, '"');
    var y := RemoveAll([q] + x + [q], "\"");
    RemoveCharSpec(x, '"');
    RemoveCharSpec(x, '\'');
    if q == '"' {
      assert RemoveAll([q], "\"") == [];
      assert y == x;
      RemoveCharSpec(x, '\'');
    } else {
      assert RemoveAll([q], "\"") == [q];
      assert y == [q] + x + [q];
      RemoveCharConcat([q] + x, [q], '\'');
      RemoveCharConcat([q], x, '\'');
      assert RemoveAll([q], "'") == [];
    }
  }

  /** StripQuotes works piece by piece */
  lemma StripQuotesConcat(a: string, b: string)
    ensures StripQuotes(a + b) == StripQuotes(a) + StripQuotes(b)
  {
    RemoveCharConcat(a, b, '"');
    RemoveCharConcat(RemoveAll(a, "\""), RemoveAll(b, "\""), '\'');
  }

  /** Quotes removed around a quote-free text that sits between two quote-free texts */
  lemma StripQuotesAround(a: string, q: char, x: string, b: string)
    requires IsQuote(q) && forall c | c in a + x + b :: !IsQuote(c)
    ensures StripQuotes(a + ([q] + x + [q]) + b) == a + x + b
  {
    StripQuotesConcat(a + ([q] + x + [q]), b);
    StripQuotesConcat(a, [q] + x + [q]);
    StripQuotesQuoted(q, x);
    StripQuotesSpec(a);
    StripQuotesSpec(b);
  }

  /** A pattern at the start of the text is removed, and removal goes on after it */
  lemma RemoveLeading(p: string, rest: string)
    requires |p| > 0
    ensures RemoveAll(p + rest, p) == RemoveAll(rest, p)
  {
    assert OccursAt(p + rest, p, 0);
    assert (p + rest)[|p|..] == rest;
  }

  /** Removing a pattern that does not occur leaves the text as it is */
  lemma {:induction false} RemoveAllAbsent(s: string, p: string)
    requires !Contains(s, p)
    ensures RemoveAll(s, p) == s
    decreases |s|
  {
    if |p| > 0 && |s| > 0 {
      forall j | 0 <= j <= |s[1..]| ensures !OccursAt(s[1..], p, j) {
        OccursAtTail(s, p, j);
      }
      RemoveAllAbsent(s[1..], p);
    }
  }

  /** Removing a pattern keeps no character the text did not have */
  lemma {:induction false} RemoveAllSubset(s: string, p: string)
    ensures forall c | c in RemoveAll(s, p) :: c in s
    decreases |s|
  {
    if |p| > 0 && |s| > 0 {
      if OccursAt(s, p, 0) {
        RemoveAllSubset(s[|p|..], p);
        assert forall c | c in s[|p|..] :: c in s;
      } else {
        RemoveAllSubset(s[1..], p);
      }
    }
  }

  /** A character that cannot end `p` appended to a text without `p` does not create an occurrence */
  lemma ContainsNotAcross(x: string, p: string, c: char)
    requires !Contains(x, p) && |p| > 0 && c != p[|p| - 1]
    ensures !Contains(x + [c], p)
  {
    var s := x + [c];
    forall j | 0 <= j <= |s| ensures !OccursAt(s, p, j) {
      if j + |p| <= |x| {
        assert s[j..j + |p|] == x[j..j + |p|];
        assert !OccursAt(x, p, j);
      } else if j + |p| == |s| {
        assert s[j..j + |p|][|p| - 1] == c;
      }
    }
  }

  function SpanBack(s: string, p: char -> bool): (n: nat)
    ensures n <= |s|
    ensures forall i | |s| - n <= i < |s| :: p(s[i])
    ensures n < |s| ==> !p(s[|s| - n - 1])
  {
    if |s| == 0 || !p(s[|s| - 1]) then 0 else 1 + SpanBack(s[..|s| - 1], p)
  }

  /** `s.trim()`: the text between the leading and the trailing blanks */
  function Trim(s: string): (r: string)
    ensures exists i, j | 0 <= i <= j <= |s| :: r == s[i..j] && All(s[..i], IsSpace) && All(s[j..], IsSpace)
    ensures r == [] <==> All(s, IsSpace)
    ensures r != [] ==> !IsSpace(r[0]) && !IsSpace(r[|r| - 1])
  {
    var a := Span(s, IsSpace);
    var j := |s| - SpanBack(s[a..], IsSpace);
    TrimBounds(s, a, j);
    s[a..j]
  }

  /** Where `trim` cuts: after the leading blanks, and before the trailing ones */
  lemma TrimBounds(s: string, a: nat, j: nat)
    requires a == Span(s, IsSpace) && j == |s| - SpanBack(s[a..], IsSpace)
    ensures a <= j <= |s|
    ensures All(s[..a], IsSpace) && All(s[j..], IsSpace)
    ensures a < j ==> !IsSpace(s[a]) && !IsSpace(s[j - 1])
    ensures a == j <==> All(s, IsSpace)
  {
    AllPrefix(s, a, IsSpace);
    AllSuffix(s, s[a..], j, IsSpace);
    if a < |s| {
      TrimEnds(s, a, j);
    } else {
      assert s[..a] == s;
    }
  }

  lemma AllPrefix(s: string, a: nat, p: char -> bool)
    requires a <= |s| && forall i | 0 <= i < a :: p(s[i])
    ensures All(s[..a], p)
  {
    forall k | 0 <= k < a ensures p(s[..a][k]) {
      assert s[..a][k] == s[k];
    }
  }

  lemma AllSuffix(s: string, u: string, j: nat, p: char -> bool)
    requires |u| <= |s| && u == s[|s| - |u|..] && |s| - |u| <= j <= |s|
    requires forall i | j - (|s| - |u|) <= i < |u| :: p(u[i])
    ensures All(s[j..], p)
  {
    forall k | 0 <= k < |s| - j ensures p(s[j..][k]) {
      assert s[j..][k] == u[j - (|s| - |u|) + k];
    }
  }

  lemma TrimEnds(s: string, a: nat, j: nat)
    requires a < |s| && a == Span(s, IsSpace) && j == |s| - SpanBack(s[a..], IsSpace)
    ensures a < j && !IsSpace(s[a]) && !IsSpace(s[j - 1]) && !All(s, IsSpace)
  {
    var u := s[a..];
    assert u[0] == s[a];
    assert u[j - a - 1] == s[j - 1];
  }

  /** A text that starts and ends with a non-space character is its own trim */
  lemma TrimOfTrimmed(s: string)
    requires s != [] && !IsSpace(s[0]) && !IsSpace(s[|s| - 1])
    ensures Trim(s) == s
  {
  }

  /** Blanks before a trimmed text are what `trim` removes */
  lemma TrimLeading(b: string, s: string)
    requires All(b, IsSpace) && s != [] && !IsSpace(s[0]) && !IsSpace(s[|s| - 1])
    ensures Trim(b + s) == s
  {
    var t := b + s;
    assert t[|b|] == s[0];
    assert forall i | 0 <= i < |b| :: t[i] == b[i];
    assert Span(t, IsSpace) == |b|;
    assert t[|b|..] == s;
  }

  /** `xs.join(sep)` */
  function Join(xs: seq<string>, sep: string): string
  {
    if |xs| == 0 then ""
    else if |xs| == 1 then xs[0]
    else xs[0] + sep + Join(xs[1..], sep)
  }

  lemma {:induction false} JoinSplit(xs: seq<string>, sep: string, i: nat)
    requires 0 < i < |xs|
    ensures Join(xs, sep) == Join(xs[..i], sep) + sep + Join(xs[i..], sep)
  {
    if i > 1 {
      JoinSplit(xs[1..], sep, i - 1);
      assert xs[1..][..i - 1] == xs[..i][1..];
      assert xs[1..][i - 1..] == xs[i..];
    }
  }

  /** A join of two elements, written out */
  lemma JoinTwo(a: string, b: string, sep: string)
    ensures Join([a, b], sep) == a + sep + b
  {
    assert [a, b][1..] == [b];
  }

  /** A concatenation starts with its first part and ends with its second */
  lemma ConcatEnds(p: string, t: string)
    ensures StartsWith(p + t, p) && EndsWith(p + t, t)
  {
    assert (p + t)[..|p|] == p;
    assert (p + t)[|p|..] == t;
  }

  /** A join of six elements, written out */
  lemma JoinSix(a: string, b: string, c: string, d: string, e: string, f: string, sep: string)
    ensures Join([a, b, c, d, e, f], sep) == (a + sep + b + sep + c + sep + d) + (sep + e + sep + f)
  {
    var xs := [a, b, c, d, e, f];
    var ef := Join([e, f], sep);
    JoinTwo(e, f, sep);
    assert [d, e, f][1..] == [e, f];
    assert Join([d, e, f], sep) == d + sep + ef;
    assert [c, d, e, f][1..] == [d, e, f];
    assert Join([c, d, e, f], sep) == c + sep + (d + sep + ef);
    assert [b, c, d, e, f][1..] == [c, d, e, f];
    assert Join([b, c, d, e, f], sep) == b + sep + (c + sep + (d + sep + ef));
    assert xs[1..] == [b, c, d, e, f];
    assert Join(xs, sep) == a + sep + (b + sep + (c + sep + (d + sep + ef)));
  }

  /** A join is the elements before `i`, the element at `i`, and the elements after it, with separators between */
  lemma {:induction false} JoinAround(xs: seq<string>, sep: string, i: nat)
    requires i < |xs|
    ensures exists before, after :: Join(xs, sep) == before + xs[i] + after
  {
    if i == 0 {
      if |xs| == 1 {
        assert Join(xs, sep) == "" + xs[0] + "";
      } else {
        assert Join(xs, sep) == "" + xs[0] + (sep + Join(xs[1..], sep));
      }
    } else {
      JoinAround(xs[1..], sep, i - 1);
      var before, after :| Join(xs[1..], sep) == before + xs[1..][i - 1] + after;
      assert Join(xs, sep) == (xs[0] + sep + before) + xs[i] + after;
    }
  }

  /** Every element of a join appears in it */
  lemma JoinElement(xs: seq<string>, sep: string, i: nat)
    requires i < |xs|
    ensures Contains(Join(xs, sep), xs[i])
  {
    JoinAround(xs, sep, i);
    var before, after :| Join(xs, sep) == before + xs[i] + after;
    assert Join(xs, sep)[|before|..|before| + |xs[i]|] == xs[i];
    OccursAtContains(Join(xs, sep), xs[i], |before|);
  }

  function Digit(d: nat): (c: char)
    requires d < 10
  {
    ('0' as int + d) as char
  }

  /** Decimal rendering of a number, as a template literal shows it */
  function NatToString(n: nat): (r: string)
    ensures |r| > 0 && forall i | 0 <= i < |r| :: '0' <= r[i] <= '9'
  {
    if n < 10 then [Digit(n)] else NatToString(n / 10) + [Digit(n % 10)]
  }

  /** The value of a string of decimal digits */
  function DecimalValue(s: string): nat
    requires forall i | 0 <= i < |s| :: '0' <= s[i] <= '9'
  {
    if |s| == 0 then 0 else 10 * DecimalValue(s[..|s| - 1]) + (s[|s| - 1] as int - '0' as int)
  }

  lemma {:induction false} DecimalRoundTrip(n: nat)
    ensures DecimalValue(NatToString(n)) == n
  {
    if n >= 10 {
      DecimalRoundTrip(n / 10);
      var s := NatToString(n);
      assert s[..|s| - 1] == NatToString(n / 10);
    }
  }

  /** Different numbers are rendered differently */
  lemma NatToStringInjective(m: nat, n: nat)
    requires m != n
    ensures NatToString(m) != NatToString(n)
  {
    DecimalRoundTrip(m);
    DecimalRoundTrip(n);
  }
}
