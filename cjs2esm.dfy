/**
 * `cjs2esm` of src/livecodes/compiler/import-map.ts: a CommonJS module is turned into an ES
 * module by importing every module it `require`s, numbered in order, publishing them in a
 * lookup object behind a `window.require` shim, and exporting `module.exports` by default.
 */
module CommonJs {
  import opened JsStrings
  import opened Scanning
  import opened Patterns

  /** `getRequires`: the id of every `require('...')` / `require("...")` call, quotes removed */
  function GetRequires(code: string): seq<string> {
    var gs := Hits(Scan(code, MatchRequire));
    seq(|gs|, i requires 0 <= i < |gs| => StripQuotes(gs[i]))
  }

  /** `__requires_<i>_default` */
  function DefaultName(i: nat): string {
    "__requires_" + NatToString(i) + "_default"
  }

  /** `__requires_<i>` */
  function NamespaceName(i: nat): string {
    "__requires_" + NatToString(i)
  }

  /** The two import lines of the `i`-th required id */
  function ImportPair(id: string, i: nat): string {
    Join(["import " + DefaultName(i) + " from '" + id + "';", "import * as " + NamespaceName(i) + " from '" + id + "';"], "\n")
  }

  /** `imports`: the import lines of every required id, in order */
  function Imports(ids: seq<string>): string {
    Join(seq(|ids|, i requires 0 <= i < |ids| => ImportPair(ids[i], i)), "\n")
  }

  /** The entry of the `i`-th required id in the lookup object */
  function LookupEntry(id: string, i: nat): string {
    "'" + id + "': " + DefaultName(i) + " || " + NamespaceName(i)
  }

  /** `lookup`: the object mapping every required id to its module */
  function Lookup(ids: seq<string>): string {
    "const __requires_lookup = { " + Join(seq(|ids|, i requires 0 <= i < |ids| => LookupEntry(ids[i], i)), ", ") + " };"
  }

  /** `require`: the shim that serves `require(id)` from the lookup object */
  const RequireShim: string :=
    "window.require = window.require || ((id) => {\n"
    + "\tif (id in __requires_lookup) return __requires_lookup[id];\n"
    + "\tthrow new Error(`Cannot require modules dynamically (${id})`);\n"
    + "});"

  const ModuleShim: string := "const exports = {}; const module = { exports };"

  const DefaultExport: string := "export default module.exports;"

  /** `cjs2esm(code)` */
  function Cjs2Esm(code: string): string {
    if !HasCjsToken(code) then code
    else
      var ids := GetRequires(code);
      if |ids| == 0 then code
      else Join([Imports(ids), Lookup(ids), RequireShim, ModuleShim, code, DefaultExport], "\n\n")
  }

  // ---------------------------------------------------------------------------------------
  // getRequires
  // ---------------------------------------------------------------------------------------

  /**
   * One id per `require` call the scan finds, in order, each with its quotes removed; there is
   * an id exactly when the call pattern matches somewhere in the code.
   */
  lemma GetRequiresSpec(code: string)
    ensures |GetRequires(code)| == |Hits(Scan(code, MatchRequire))|
    ensures forall i | 0 <= i < |GetRequires(code)| ::
      GetRequires(code)[i] == StripQuotes(Hits(Scan(code, MatchRequire))[i])
    ensures forall id | id in GetRequires(code) :: forall c | c in id :: !IsQuote(c)
    ensures GetRequires(code) != [] <==> Test(code, MatchRequire)
    ensures Flatten(Scan(code, MatchRequire)) == code
    ensures NoMatchInGaps(code, MatchRequire, Scan(code, MatchRequire), 0)
  {
    ScanTiles(code, MatchRequire);
    ScanGapsHoldNoMatch(code, MatchRequire);
    var gs := Hits(Scan(code, MatchRequire));
    forall id | id in GetRequires(code) ensures forall c | c in id :: !IsQuote(c) {
      var i :| 0 <= i < |gs| && id == StripQuotes(gs[i]);
      StripQuotesSpec(gs[i]);
    }
    ScanFindsIffTest(code, MatchRequire);
  }

  /** Code in which the word `require` never occurs has no require calls */
  lemma NoRequireWord(code: string)
    requires !Contains(code, "require")
    ensures GetRequires(code) == []
  {
    GetRequiresSpec(code);
    if Test(code, MatchRequire) {
      var i :| 0 <= i <= |code| && MatchAt(code, MatchRequire, i);
      RequireCallAt(code, i);
      OccursAtContains(code, "require", i);
    }
  }

  /** A require call found at `i` spells `require` there */
  lemma RequireCallAt(code: string, i: nat)
    requires i <= |code| && MatchAt(code, MatchRequire, i)
    ensures OccursAt(code, "require", i)
  {
    MatchRequireSpec(code[i..]);
    assert code[i..][..7] == code[i..i + 7];
  }

  // ---------------------------------------------------------------------------------------
  // The converted module
  // ---------------------------------------------------------------------------------------

  /** The converted module: the imports first, then the rest of the prelude, the code and the default export */
  lemma ConvertedShape(code: string, ids: seq<string>)
    requires |ids| > 0
    ensures var r := Join([Imports(ids), Lookup(ids), RequireShim, ModuleShim, code, DefaultExport], "\n\n");
      && StartsWith(r, Imports(ids) + "\n\n" + Lookup(ids) + "\n\n" + RequireShim + "\n\n" + ModuleShim)
      && EndsWith(r, "\n\n" + code + "\n\n" + DefaultExport)
      && |r| > |code| + |DefaultExport|
  {
    var sep := "\n\n";
    JoinSix(Imports(ids), Lookup(ids), RequireShim, ModuleShim, code, DefaultExport, sep);
    ConcatEnds(Imports(ids) + sep + Lookup(ids) + sep + RequireShim + sep + ModuleShim, sep + code + sep + DefaultExport);
  }

  /**
   * `cjs2esm` returns the code as it is exactly when it has no `require`/`module`/`exports`
   * word or no require call; otherwise the code is kept whole between the prelude and the
   * default export of `module.exports`.
   */
  lemma Cjs2EsmSpec(code: string)
    ensures Cjs2Esm(code) == code <==> !HasCjsToken(code) || GetRequires(code) == []
    ensures HasCjsToken(code) && GetRequires(code) != [] ==>
      var ids := GetRequires(code);
      && Cjs2Esm(code) == Join([Imports(ids), Lookup(ids), RequireShim, ModuleShim, code, DefaultExport], "\n\n")
      && StartsWith(Cjs2Esm(code), Imports(ids) + "\n\n" + Lookup(ids) + "\n\n" + RequireShim + "\n\n" + ModuleShim)
      && EndsWith(Cjs2Esm(code), "\n\n" + code + "\n\n" + DefaultExport)
  {
    if HasCjsToken(code) && GetRequires(code) != [] {
      ConvertedShape(code, GetRequires(code));
    }
  }

  /** Code without the word `require` (a module that only assigns `module.exports`, say) is returned as it is */
  lemma NoRequireUnchanged(code: string)
    requires !Contains(code, "require")
    ensures Cjs2Esm(code) == code
  {
    NoRequireWord(code);
  }

  /** Different positions get different binding names, and no default binding is a namespace binding */
  lemma BindingsDistinct(i: nat, j: nat)
    ensures i != j ==> DefaultName(i) != DefaultName(j) && NamespaceName(i) != NamespaceName(j)
    ensures DefaultName(i) != NamespaceName(j)
  {
    if i != j {
      NatToStringInjective(i, j);
    }
    var pre := "__requires_";
    var di, dj := DefaultName(i), DefaultName(j);
    assert di[|pre|..|di| - 8] == NatToString(i);
    assert dj[|pre|..|dj| - 8] == NatToString(j);
    assert NamespaceName(i)[|pre|..] == NatToString(i);
    assert NamespaceName(j)[|pre|..] == NatToString(j);
    var n := NamespaceName(j);
    assert di[|di| - 1] == 't';
    assert '0' <= n[|n| - 1] <= '9';
  }

  /** The `i`-th import pair holds the default import and the namespace import of the `i`-th id */
  lemma ImportPairLines(id: string, i: nat)
    ensures Contains(ImportPair(id, i), "import " + DefaultName(i) + " from '" + id + "';")
    ensures Contains(ImportPair(id, i), "import * as " + NamespaceName(i) + " from '" + id + "';")
  {
    var lines := ["import " + DefaultName(i) + " from '" + id + "';", "import * as " + NamespaceName(i) + " from '" + id + "';"];
    JoinElement(lines, "\n", 0);
    JoinElement(lines, "\n", 1);
  }

  /**
   * Every required id, repeats included, is imported twice under the names of its position and
   * listed in the lookup object under those names.
   */
  lemma EveryRequireImported(code: string, i: nat)
    requires HasCjsToken(code) && i < |GetRequires(code)|
    ensures var id := GetRequires(code)[i];
      && Contains(Cjs2Esm(code), "import " + DefaultName(i) + " from '" + id + "';")
      && Contains(Cjs2Esm(code), "import * as " + NamespaceName(i) + " from '" + id + "';")
      && Contains(Cjs2Esm(code), LookupEntry(id, i))
  {
    var ids := GetRequires(code);
    var id := ids[i];
    var r := Cjs2Esm(code);
    var xs := [Imports(ids), Lookup(ids), RequireShim, ModuleShim, code, DefaultExport];
    JoinElement(xs, "\n\n", 0);
    JoinElement(xs, "\n\n", 1);
    var pairs := seq(|ids|, k requires 0 <= k < |ids| => ImportPair(ids[k], k));
    JoinElement(pairs, "\n", i);
    ImportPairLines(id, i);
    ContainsTrans(r, Imports(ids), ImportPair(id, i));
    ContainsTrans(r, ImportPair(id, i), "import " + DefaultName(i) + " from '" + id + "';");
    ContainsTrans(r, ImportPair(id, i), "import * as " + NamespaceName(i) + " from '" + id + "';");
    var entries := seq(|ids|, k requires 0 <= k < |ids| => LookupEntry(ids[k], k));
    var body := Join(entries, ", ");
    JoinElement(entries, ", ", i);
    ContainsParts("const __requires_lookup = { " + body, " };");
    ContainsParts("const __requires_lookup = { ", body);
    ContainsTrans(Lookup(ids), "const __requires_lookup = { " + body, body);
    ContainsTrans(r, Lookup(ids), body);
    ContainsTrans(r, body, LookupEntry(id, i));
  }

  // ---------------------------------------------------------------------------------------
  // One call on its own
  // ---------------------------------------------------------------------------------------

  /** `require(<q><x><q>)` alone requires exactly `x` */
  lemma LoneRequire(q: char, x: string)
    requires IsQuote(q) && forall c | c in x :: !IsQuote(c) && !IsLineTerminator(c)
    ensures var code := "require(" + ([q] + x + [q] + ")");
      HasCjsToken(code) && GetRequires(code) == [x]
  {
    var code := "require(" + ([q] + x + [q] + ")");
    RequireWordFirst(code, [q] + x + [q] + ")");
    LoneRequireIds(code, q, x);
  }

  /** A call at the very start of the code is a whole `require` word */
  lemma RequireWordFirst(code: string, u: string)
    requires code == "require(" + u
    ensures HasCjsToken(code)
  {
    assert code[..7] == "require" && code[7] == '(';
    assert WordAt(code, "require", 0);
    assert "require" in CjsWords;
  }

  lemma LoneRequireIds(code: string, q: char, x: string)
    requires IsQuote(q) && forall c | c in x :: !IsQuote(c) && !IsLineTerminator(c)
    requires code == "require(" + ([q] + x + [q] + ")")
    ensures GetRequires(code) == [x]
  {
    assert code == "require(" + ([q] + x + [q] + ")") + "";
    MatchRequireCall(code, q, x, "");
    ScanWholeMatch(code, MatchRequire);
    var ps := [Hit(code, [q] + x + [q])];
    assert Hits(ps) == [[q] + x + [q]] + Hits(ps[1..]);
    StripQuotesQuoted(q, x);
  }

  /**
   * `require('pkg')` becomes the two imports of `pkg` as module 0, a lookup object with the one
   * entry, the shims, the call itself and the default export.
   */
  lemma LoneRequireConverted(q: char, x: string)
    requires IsQuote(q) && forall c | c in x :: !IsQuote(c) && !IsLineTerminator(c)
    ensures var code := "require(" + ([q] + x + [q] + ")");
      Cjs2Esm(code) == Join([
        "import " + "__requires_0_default" + " from '" + x + "';" + "\n" + ("import * as " + "__requires_0" + " from '" + x + "';"),
        "const __requires_lookup = { " + ("'" + x + "': " + "__requires_0_default" + " || " + "__requires_0") + " };",
        RequireShim, ModuleShim, code, DefaultExport], "\n\n")
  {
    LoneRequire(q, x);
    OneRequireParts(x);
  }

  /** The names of module 0 */
  lemma NamesOfZero()
    ensures DefaultName(0) == "__requires_" + "0" + "_default" && NamespaceName(0) == "__requires_" + "0"
  {
    assert NatToString(0) == "0";
  }

  /** The import lines and the lookup object of a single required id */
  lemma OneRequireParts(x: string)
    ensures Imports([x]) == "import " + "__requires_0_default" + " from '" + x + "';" + "\n" + ("import * as " + "__requires_0" + " from '" + x + "';")
    ensures Lookup([x]) == "const __requires_lookup = { " + ("'" + x + "': " + "__requires_0_default" + " || " + "__requires_0") + " };"
  {
    NamesOfZero();
    assert "__requires_" + "0" + "_default" == "__requires_0_default";
    assert "__requires_" + "0" == "__requires_0";
    var pairs := seq(1, k requires 0 <= k < 1 => ImportPair([x][k], k));
    assert pairs == [ImportPair(x, 0)];
    JoinTwo("import " + DefaultName(0) + " from '" + x + "';", "import * as " + NamespaceName(0) + " from '" + x + "';", "\n");
    var entries := seq(1, k requires 0 <= k < 1 => LookupEntry([x][k], k));
    assert entries == [LookupEntry(x, 0)];
  }
}
