/**
 * The stylesheet part of src/livecodes/compiler/import-map.ts: `hasStyleImports` and
 * `replaceStyleImports`, which sends the URL of every bare `@import` to the module URL service
 * and wraps the result in an `@media` block when the statement names media.
 */
module StyleImports {
  import opened JsStrings
  import opened Scanning
  import opened Patterns
  import opened ImportMap

  /** The `@import` statements of a stylesheet and the text between them */
  function ScanStyleImports(code: string): seq<Piece<StyleGroups>> {
    Scan(code, MatchStyleImport)
  }

  /** `hasStyleImports` */
  predicate HasStyleImports(code: string) {
    Test(code, MatchStyleImport)
  }

  /**
   * hasStyleImports holds exactly when the scan finds a statement; the statements and the text
   * between them make up the whole stylesheet, and every statement starts with `@import` and
   * ends with its two groups and a `;`.
   */
  lemma StyleScanSpec(code: string)
    ensures HasStyleImports(code) <==> Hits(ScanStyleImports(code)) != []
    ensures Flatten(ScanStyleImports(code)) == code
    ensures forall p | p in ScanStyleImports(code) && p.Hit? ::
      StartsWith(p.text, "@import") && EndsWith(p.text, p.groups.target + p.groups.media + ";")
    ensures NoMatchInGaps(code, MatchStyleImport, ScanStyleImports(code), 0)
  {
    ScanFindsIffTest(code, MatchStyleImport);
    ScanTiles(code, MatchStyleImport);
    ScanGapsHoldNoMatch(code, MatchStyleImport);
    var P := (text: string, g: StyleGroups) => StartsWith(text, "@import") && EndsWith(text, g.target + g.media + ";");
    forall t: string | MatchStyleImport(t).Some? && MatchStyleImport(t).value.len <= |t|
      ensures P(t[..MatchStyleImport(t).value.len], MatchStyleImport(t).value.groups)
    {
      MatchStyleImportSpec(t);
      StartsWithCut(t, "@import", MatchStyleImport(t).value.len);
    }
    ScanHitsSatisfy(code, MatchStyleImport, P);
  }

  /** The URL read from the first group: every `"`, `'`, `url(` and `)` removed, in that order */
  function StyleUrl(target: string): string {
    RemoveAll(RemoveAll(StripQuotes(target), "url("), ")")
  }

  /** The URL has no quote and no `)` left in it */
  lemma StyleUrlSpec(target: string)
    ensures forall c | c in StyleUrl(target) :: !IsQuote(c) && c != ')'
  {
    var a := StripQuotes(target);
    var b := RemoveAll(a, "url(");
    StripQuotesSpec(target);
    RemoveAllSubset(a, "url(");
    RemoveAllSubset(b, ")");
    RemoveCharSpec(b, ')');
  }

  /** A quoted target gives back the text between its quotes */
  lemma StyleUrlQuoted(q: char, x: string)
    requires IsQuote(q) && forall c | c in x :: !IsQuote(c) && c != ')'
    requires !Contains(x, "url(")
    ensures StyleUrl([q] + x + [q]) == x
  {
    StripQuotesQuoted(q, x);
    RemoveAllAbsent(x, "url(");
    RemoveCharSpec(x, ')');
  }

  /** A `url('...')` or `url("...")` target gives back the text between its quotes */
  lemma StyleUrlFunction(q: char, x: string)
    requires IsQuote(q) && forall c | c in x :: !IsQuote(c) && c != ')'
    requires !Contains(x, "url(")
    ensures StyleUrl("url(" + ([q] + x + [q]) + ")") == x
  {
    var a := StripQuotes("url(" + ([q] + x + [q]) + ")");
    StripQuotesAround("url(", q, x, ")");
    assert a == "url(" + (x + ")");
    var b := RemoveAll(a, "url(");
    RemoveLeading("url(", x + ")");
    ContainsNotAcross(x, "url(", ')');
    RemoveAllAbsent(x + ")", "url(");
    assert b == x + ")";
    RemoveCharConcat(x, ")", ')');
    RemoveCharSpec(x, ')');
    assert RemoveAll(b, ")") == x;
  }

  /** `'@import "' + url + '";'` */
  function ImportOf(url: string): string {
    "@import \"" + url + "\";"
  }

  /** The callback of `replaceStyleImports` for one statement and its two groups */
  function RewriteStyleStatement(statement: string, g: StyleGroups, resolve: Resolver): string {
    var url := StyleUrl(g.target);
    var modified := ImportOf(resolve(url, Some(false)));
    var mediaQuery := Trim(g.media);
    if !IsBare(url) then statement
    else if mediaQuery != [] then "@media " + mediaQuery + " {\n" + modified + "\n}"
    else modified
  }

  /** `replaceStyleImports(code)` */
  function ReplaceStyleImports(code: string, resolve: Resolver): string {
    Render(ScanStyleImports(code), (statement, g: StyleGroups) => RewriteStyleStatement(statement, g, resolve))
  }

  /** A stylesheet without `@import` statements is returned as it is */
  lemma ReplaceStyleImportsWithout(code: string, resolve: Resolver)
    requires !HasStyleImports(code)
    ensures ReplaceStyleImports(code, resolve) == code
  {
    StyleScanSpec(code);
    RenderWithoutHits(ScanStyleImports(code), (statement, g: StyleGroups) => RewriteStyleStatement(statement, g, resolve));
  }

  /** A stylesheet whose imported URLs are all remote, relative, absolute, data: or blob: is returned as it is */
  lemma ReplaceStyleImportsNonBareOnly(code: string, resolve: Resolver)
    requires forall g | g in Hits(ScanStyleImports(code)) :: !IsBare(StyleUrl(g.target))
    ensures ReplaceStyleImports(code, resolve) == code
  {
    var ps := ScanStyleImports(code);
    var f := (statement, g: StyleGroups) => RewriteStyleStatement(statement, g, resolve);
    forall k | 0 <= k < |ps| && ps[k].Hit? ensures f(ps[k].text, ps[k].groups) == ps[k].text {
      PieceInHits(ps, k);
    }
    RenderIdentity(ps, f);
    StyleScanSpec(code);
  }

  // ---------------------------------------------------------------------------------------
  // One statement on its own
  // ---------------------------------------------------------------------------------------

  /** `@import <q><x><q><media>;` */
  function StyleLine(q: char, x: string, media: string): string {
    "@import " + ([q] + x + [q] + (media + ";"))
  }

  /** The statement the callback builds is a one-line `@import` of the URL in double quotes, with no media */
  lemma ImportOfIsStyleLine(url: string)
    ensures ImportOf(url) == StyleLine('"', url, "")
  {
    assert ['"'] + url + ['"'] + ("" + ";") == ['"'] + url + "\";";
  }

  /** What a lone statement needs to be scanned as one and have its URL read back */
  predicate PlainTarget(q: char, x: string) {
    && IsQuote(q) && (forall c | c in x :: !IsQuote(c) && c != ')' && !IsLineTerminator(c))
    && !Contains(x, "url(")
  }

  predicate PlainMedia(media: string) {
    forall c | c in media :: c != ';' && !IsLineTerminator(c)
  }

  /** A lone statement is rewritten by the callback applied to its groups, and its URL is the text in its quotes */
  lemma StyleLineAlone(q: char, x: string, media: string, resolve: Resolver)
    requires PlainTarget(q, x) && PlainMedia(media)
    ensures ReplaceStyleImports(StyleLine(q, x, media), resolve)
      == RewriteStyleStatement(StyleLine(q, x, media), StyleGroups([q] + x + [q], media), resolve)
    ensures StyleUrl([q] + x + [q]) == x
  {
    var t := StyleLine(q, x, media);
    var g := StyleGroups([q] + x + [q], media);
    MatchStyleQuoted(t, q, x, media);
    ScanWholeMatch(t, MatchStyleImport);
    var f := (statement, g: StyleGroups) => RewriteStyleStatement(statement, g, resolve);
    var ps := [Hit(t, g)];
    assert Render(ps, f) == f(t, g) + Render(ps[1..], f);
    StyleUrlQuoted(q, x);
  }

  /**
   * A lone statement: kept when its URL is not bare; otherwise replaced by an `@import` of the
   * service's URL for it, inside an `@media` block named by the trimmed media text when that
   * is not empty.
   */
  lemma StyleLineRewritten(q: char, x: string, media: string, resolve: Resolver)
    requires PlainTarget(q, x) && PlainMedia(media)
    ensures !IsBare(x) ==> ReplaceStyleImports(StyleLine(q, x, media), resolve) == StyleLine(q, x, media)
    ensures IsBare(x) && Trim(media) == [] ==>
      ReplaceStyleImports(StyleLine(q, x, media), resolve) == StyleLine('"', resolve(x, Some(false)), "")
    ensures IsBare(x) && Trim(media) != [] ==>
      ReplaceStyleImports(StyleLine(q, x, media), resolve)
        == "@media " + Trim(media) + " {\n" + StyleLine('"', resolve(x, Some(false)), "") + "\n}"
  {
    StyleLineAlone(q, x, media, resolve);
    ImportOfIsStyleLine(resolve(x, Some(false)));
  }

  /** `@import url(<q><x><q>)<media>;` */
  function UrlLine(q: char, x: string, media: string): string {
    "@import " + ("url(" + ([q] + x + [q]) + ")" + (media + ";"))
  }

  /** A lone `url(...)` statement is rewritten by the callback applied to its groups, and its URL is the text in its quotes */
  lemma UrlLineAlone(q: char, x: string, media: string, resolve: Resolver)
    requires PlainTarget(q, x) && PlainMedia(media)
    ensures ReplaceStyleImports(UrlLine(q, x, media), resolve)
      == RewriteStyleStatement(UrlLine(q, x, media), StyleGroups("url(" + ([q] + x + [q]) + ")", media), resolve)
    ensures StyleUrl("url(" + ([q] + x + [q]) + ")") == x
  {
    var t := UrlLine(q, x, media);
    var g := StyleGroups("url(" + ([q] + x + [q]) + ")", media);
    MatchStyleUrl(t, q, x, media);
    ScanWholeMatch(t, MatchStyleImport);
    var f := (statement, g: StyleGroups) => RewriteStyleStatement(statement, g, resolve);
    var ps := [Hit(t, g)];
    assert Render(ps, f) == f(t, g) + Render(ps[1..], f);
    StyleUrlFunction(q, x);
  }

  /**
   * A lone `url(...)` statement is rewritten as a quoted one is: kept when its URL is not bare,
   * otherwise replaced by an `@import` of the service's URL, inside an `@media` block when the
   * trimmed media text is not empty.
   */
  lemma UrlLineRewritten(q: char, x: string, media: string, resolve: Resolver)
    requires PlainTarget(q, x) && PlainMedia(media)
    ensures !IsBare(x) ==> ReplaceStyleImports(UrlLine(q, x, media), resolve) == UrlLine(q, x, media)
    ensures IsBare(x) && Trim(media) == [] ==>
      ReplaceStyleImports(UrlLine(q, x, media), resolve) == StyleLine('"', resolve(x, Some(false)), "")
    ensures IsBare(x) && Trim(media) != [] ==>
      ReplaceStyleImports(UrlLine(q, x, media), resolve)
        == "@media " + Trim(media) + " {\n" + StyleLine('"', resolve(x, Some(false)), "") + "\n}"
  {
    UrlLineAlone(q, x, media, resolve);
    ImportOfIsStyleLine(resolve(x, Some(false)));
  }

  /**
   * `@import 'foo.css' screen;`: a bare URL with media becomes an `@import` of the service's
   * URL inside `@media screen { ... }`.
   */
  lemma MediaExample(x: string, m: string, resolve: Resolver)
    requires PlainTarget('\'', x) && IsBare(x)
    requires PlainMedia(m) && m != [] && !IsSpace(m[0]) && !IsSpace(m[|m| - 1])
    ensures ReplaceStyleImports(StyleLine('\'', x, " " + m), resolve)
      == "@media " + m + " {\n" + ImportOf(resolve(x, Some(false))) + "\n}"
  {
    assert PlainMedia(" " + m) by {
      forall c | c in " " + m ensures c != ';' && !IsLineTerminator(c) {
        if c != ' ' {
          assert c in m;
        }
      }
    }
    StyleLineRewritten('\'', x, " " + m, resolve);
    TrimLeading(" ", m);
    ImportOfIsStyleLine(resolve(x, Some(false)));
  }

  /**
   * A bare import without media whose resolved URL is not bare (an https: URL, say) is left
   * alone by a second pass: rewriting twice is rewriting once.
   */
  lemma RewriteTwice(q: char, x: string, media: string, resolve: Resolver)
    requires PlainTarget(q, x) && PlainMedia(media) && IsBare(x) && Trim(media) == []
    requires PlainTarget('"', resolve(x, Some(false))) && !IsBare(resolve(x, Some(false)))
    ensures var once := ReplaceStyleImports(StyleLine(q, x, media), resolve);
      ReplaceStyleImports(once, resolve) == once
  {
    var url := resolve(x, Some(false));
    StyleLineRewritten(q, x, media, resolve);
    assert PlainMedia("");
    StyleLineRewritten('"', url, "", resolve);
  }
}
