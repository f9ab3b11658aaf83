/**
 * The import map of src/livecodes/compiler/import-map.ts: the scan for import statements, the
 * bare-specifier test, the table from specifiers to URLs built from the configured imports and
 * the module URL service, and the rewriting of the statements with that table.
 */
module ImportMap {
  import opened JsStrings
  import opened Scanning
  import opened Patterns

  /** One property of a JavaScript object whose values are strings */
  datatype Entry = Entry(key: string, url: string)

  /** A JavaScript object of strings: its properties in `Object.keys` order (insertion order) */
  type Table = seq<Entry>

  /**
   * `modulesService.getModuleUrl(specifier, isScript)`, which is not part of this model; the
   * second argument is `None` where the call leaves it out.
   */
  type Resolver = (string, Option<bool>) -> string

  // ---------------------------------------------------------------------------------------
  // Specifiers
  // ---------------------------------------------------------------------------------------

  /** `isBare`: a specifier is bare unless it is a URL, a path, a data: URI or a blob: URI */
  function IsBare(spec: string): bool {
    && !StartsWith(spec, "https://")
    && !StartsWith(spec, "http://")
    && !StartsWith(spec, ".")
    && !StartsWith(spec, "/")
    && !StartsWith(spec, "data:")
    && !StartsWith(spec, "blob:")
  }

  /** The kinds of specifier the prefixes of `isBare` tell apart */
  datatype SpecifierClass = RemoteHttps | RemoteHttp | RelativePath | AbsolutePath | DataUri | BlobUri | Bare

  /** Classification by the first prefix, in the order `isBare` tests them */
  function Classify(spec: string): SpecifierClass {
    if StartsWith(spec, "https://") then RemoteHttps
    else if StartsWith(spec, "http://") then RemoteHttp
    else if StartsWith(spec, ".") then RelativePath
    else if StartsWith(spec, "/") then AbsolutePath
    else if StartsWith(spec, "data:") then DataUri
    else if StartsWith(spec, "blob:") then BlobUri
    else Bare
  }

  const NonBarePrefixes: seq<string> := ["https://", "http://", ".", "/", "data:", "blob:"]

  /** A specifier is bare exactly when it starts with none of the six prefixes, that is, when it classifies as Bare */
  lemma BareIff(spec: string)
    ensures IsBare(spec) <==> forall p | p in NonBarePrefixes :: !StartsWith(spec, p)
    ensures IsBare(spec) <==> Classify(spec) == Bare
    ensures !IsBare(spec) ==> exists p | p in NonBarePrefixes :: StartsWith(spec, p)
  {
  }

  lemma StartsWithTrans(s: string, a: string, b: string)
    requires StartsWith(s, a) && StartsWith(a, b)
    ensures StartsWith(s, b)
  {
    assert s[..|b|] == s[..|a|][..|b|];
  }

  /** A key that matches a bare specifier is bare itself */
  lemma MatchingKeyIsBare(key: string, lib: string)
    requires IsBare(lib) && KeyMatches(key, lib)
    ensures IsBare(key)
  {
    if key != lib {
      forall p | p in NonBarePrefixes && StartsWith(key, p) ensures false {
        StartsWithTrans(key + "/", key, p);
        assert StartsWith(key + "/", p) by {
          assert (key + "/")[..|key|] == key;
        }
        StartsWithTrans(lib, key + "/", p);
      }
    }
  }

  // ---------------------------------------------------------------------------------------
  // The scan
  // ---------------------------------------------------------------------------------------

  /** The import statements of `code` and the text between them */
  function ScanImports(code: string): seq<Piece<ImportGroups>> {
    Scan(code, MatchImport)
  }

  /** The specifier of each statement: its second group with every `"` and `'` removed */
  function Specifiers(gs: seq<ImportGroups>): (libs: seq<string>)
    ensures |libs| == |gs|
  {
    seq(|gs|, i requires 0 <= i < |gs| => StripQuotes(gs[i].quoted))
  }

  /** `getImports` */
  function GetImports(code: string): seq<string> {
    Specifiers(Hits(ScanImports(code)))
  }

  /**
   * getImports lists one specifier per import statement, in order, none with a quote left in
   * it, and the statements with the text between them make up the whole code.
   */
  lemma GetImportsSpec(code: string)
    ensures Flatten(ScanImports(code)) == code
    ensures |GetImports(code)| == |Hits(ScanImports(code))|
    ensures forall i | 0 <= i < |GetImports(code)| ::
      GetImports(code)[i] == StripQuotes(Hits(ScanImports(code))[i].quoted)
    ensures forall i, c | 0 <= i < |GetImports(code)| && c in GetImports(code)[i] :: !IsQuote(c)
    ensures NoMatchInGaps(code, MatchImport, ScanImports(code), 0)
  {
    ScanTiles(code, MatchImport);
    ScanGapsHoldNoMatch(code, MatchImport);
    forall i, c | 0 <= i < |GetImports(code)| && c in GetImports(code)[i] ensures !IsQuote(c) {
      StripQuotesSpec(Hits(ScanImports(code))[i].quoted);
    }
  }

  /** `hasImports` */
  predicate HasImports(code: string) {
    Test(code, MatchImport) || Contains(code, "export {}")
  }

  /** hasImports holds exactly when getImports finds a statement or the code holds `export {}` */
  lemma HasImportsIff(code: string)
    ensures HasImports(code) <==> |GetImports(code)| > 0 || Contains(code, "export {}")
  {
    ScanFindsIffTest(code, MatchImport);
  }

  // ---------------------------------------------------------------------------------------
  // Objects
  // ---------------------------------------------------------------------------------------

  /** `Object.keys(t)` */
  function Keys(t: Table): (ks: seq<string>)
    ensures |ks| == |t| && forall i | 0 <= i < |t| :: ks[i] == t[i].key
  {
    if |t| == 0 then [] else [t[0].key] + Keys(t[1..])
  }

  /** `t[k]` */
  function Get(t: Table, k: string): (r: Option<string>)
    ensures r.Some? <==> k in Keys(t)
    ensures r.Some? ==> Entry(k, r.value) in t
  {
    if |t| == 0 then None else if t[0].key == k then Some(t[0].url) else Get(t[1..], k)
  }

  predicate DistinctKeys(t: Table) {
    forall i, j | 0 <= i < j < |t| :: t[i].key != t[j].key
  }

  /** Setting property `e.key` to `e.url`: a new key goes last, an existing one keeps its place */
  function Put(t: Table, e: Entry): Table {
    if |t| == 0 then [e]
    else if t[0].key == e.key then [e] + t[1..]
    else [t[0]] + Put(t[1..], e)
  }

  /** `{ ...acc, ...curr }` */
  function Spread(acc: Table, curr: Table): Table
    decreases |curr|
  {
    if |curr| == 0 then acc else Spread(Put(acc, curr[0]), curr[1..])
  }

  lemma {:induction false} PutGet(t: Table, e: Entry, k: string)
    ensures Get(Put(t, e), k) == if k == e.key then Some(e.url) else Get(t, k)
  {
    if |t| > 0 && t[0].key != e.key {
      PutGet(t[1..], e, k);
    }
  }

  lemma {:induction false} PutKeys(t: Table, e: Entry)
    ensures Keys(Put(t, e)) == if e.key in Keys(t) then Keys(t) else Keys(t) + [e.key]
  {
    if |t| > 0 && t[0].key != e.key {
      PutKeys(t[1..], e);
      assert Keys(t) == [t[0].key] + Keys(t[1..]);
    }
  }

  lemma {:induction false} PutDistinct(t: Table, e: Entry)
    requires DistinctKeys(t)
    ensures DistinctKeys(Put(t, e))
  {
    PutKeys(t, e);
    var r := Put(t, e);
    assert forall i | 0 <= i < |r| :: r[i].key == Keys(r)[i];
    assert forall i | 0 <= i < |t| :: t[i].key == Keys(t)[i];
  }

  /** Every entry of `Put(t, e)` is `e` or an entry of `t` */
  lemma {:induction false} PutEntries(t: Table, e: Entry)
    ensures forall x | x in Put(t, e) :: x == e || x in t
  {
    if |t| > 0 && t[0].key != e.key {
      PutEntries(t[1..], e);
    }
  }

  /** After `{ ...acc, ...curr }` a key takes its value from `curr` when `curr` has it, from `acc` otherwise */
  lemma {:induction false} SpreadGet(acc: Table, curr: Table, k: string)
    requires DistinctKeys(curr)
    ensures Get(Spread(acc, curr), k) == if k in Keys(curr) then Get(curr, k) else Get(acc, k)
    decreases |curr|
  {
    if |curr| > 0 {
      SpreadGet(Put(acc, curr[0]), curr[1..], k);
      PutGet(acc, curr[0], k);
      assert Keys(curr) == [curr[0].key] + Keys(curr[1..]);
      if k in Keys(curr[1..]) {
        var j :| 0 <= j < |curr[1..]| && Keys(curr[1..])[j] == k;
        assert curr[j + 1].key == k;
        assert curr[0].key != k;
      }
    }
  }

  /** `{ ...acc, ...curr }` has the keys of `acc` and the keys of `curr` */
  lemma {:induction false} SpreadKeys(acc: Table, curr: Table)
    ensures forall k :: k in Keys(Spread(acc, curr)) <==> k in Keys(acc) || k in Keys(curr)
    decreases |curr|
  {
    if |curr| > 0 {
      SpreadKeys(Put(acc, curr[0]), curr[1..]);
      PutKeys(acc, curr[0]);
      assert Keys(curr) == [curr[0].key] + Keys(curr[1..]);
    }
  }

  /** `{ ...acc, ...curr }` keeps the keys of `acc` in their places, ahead of the new keys of `curr` */
  lemma {:induction false} SpreadKeepsOrder(acc: Table, curr: Table)
    ensures |acc| <= |Spread(acc, curr)| && Keys(Spread(acc, curr))[..|acc|] == Keys(acc)
    decreases |curr|
  {
    if |curr| > 0 {
      var next := Put(acc, curr[0]);
      SpreadKeepsOrder(next, curr[1..]);
      PutKeys(acc, curr[0]);
      assert Keys(next)[..|acc|] == Keys(acc);
      assert Keys(Spread(acc, curr))[..|next|][..|acc|] == Keys(Spread(acc, curr))[..|acc|];
    }
  }

  lemma {:induction false} SpreadDistinct(acc: Table, curr: Table)
    requires DistinctKeys(acc)
    ensures DistinctKeys(Spread(acc, curr))
    decreases |curr|
  {
    if |curr| > 0 {
      PutDistinct(acc, curr[0]);
      SpreadDistinct(Put(acc, curr[0]), curr[1..]);
    }
  }

  lemma {:induction false} SpreadEntries(acc: Table, curr: Table)
    ensures forall x | x in Spread(acc, curr) :: x in acc || x in curr
    decreases |curr|
  {
    if |curr| > 0 {
      PutEntries(acc, curr[0]);
      SpreadEntries(Put(acc, curr[0]), curr[1..]);
    }
  }

  /** `.reduce((acc, curr) => ({ ...acc, ...curr }), acc)` */
  function Reduce(ts: seq<Table>, acc: Table): Table
    decreases |ts|
  {
    if |ts| == 0 then acc else Reduce(ts[1..], Spread(acc, ts[0]))
  }

  lemma {:induction false} ReduceSnoc(ts: seq<Table>, t: Table, acc: Table)
    ensures Reduce(ts + [t], acc) == Spread(Reduce(ts, acc), t)
    decreases |ts|
  {
    if |ts| > 0 {
      assert (ts + [t])[1..] == ts[1..] + [t];
      ReduceSnoc(ts[1..], t, Spread(acc, ts[0]));
    }
  }

  /** In the merged object a key takes its value from the last object that has it */
  lemma LaterOverwrites(ts: seq<Table>, t: Table, acc: Table, k: string)
    requires DistinctKeys(t) && k in Keys(t)
    ensures Get(Reduce(ts + [t], acc), k) == Get(t, k)
  {
    ReduceSnoc(ts, t, acc);
    SpreadGet(Reduce(ts, acc), t, k);
  }

  lemma {:induction false} ReduceKeys(ts: seq<Table>, acc: Table)
    ensures forall k :: k in Keys(Reduce(ts, acc)) <==> k in Keys(acc) || exists i | 0 <= i < |ts| :: k in Keys(ts[i])
    decreases |ts|
  {
    if |ts| > 0 {
      SpreadKeys(acc, ts[0]);
      ReduceKeys(ts[1..], Spread(acc, ts[0]));
      forall k ensures (exists i | 0 <= i < |ts| :: k in Keys(ts[i])) <==>
        (k in Keys(ts[0]) || exists i | 0 <= i < |ts[1..]| :: k in Keys(ts[1..][i])) {
        if exists i | 0 <= i < |ts| :: k in Keys(ts[i]) {
          var i :| 0 <= i < |ts| && k in Keys(ts[i]);
          if i > 0 {
            assert ts[1..][i - 1] == ts[i];
          }
        }
      }
    }
  }

  lemma {:induction false} ReduceDistinct(ts: seq<Table>, acc: Table)
    requires DistinctKeys(acc)
    ensures DistinctKeys(Reduce(ts, acc))
    decreases |ts|
  {
    if |ts| > 0 {
      SpreadDistinct(acc, ts[0]);
      ReduceDistinct(ts[1..], Spread(acc, ts[0]));
    }
  }

  lemma {:induction false} ReduceEntries(ts: seq<Table>, acc: Table)
    ensures forall x | x in Reduce(ts, acc) :: x in acc || exists i | 0 <= i < |ts| :: x in ts[i]
    decreases |ts|
  {
    if |ts| > 0 {
      SpreadEntries(acc, ts[0]);
      ReduceEntries(ts[1..], Spread(acc, ts[0]));
      forall x | x in Reduce(ts, acc) ensures x in acc || exists i | 0 <= i < |ts| :: x in ts[i] {
        if !(x in acc) && !(x in ts[0]) {
          var i :| 0 <= i < |ts[1..]| && x in ts[1..][i];
          assert ts[1..][i] == ts[i + 1];
        }
      }
    }
  }

  // ---------------------------------------------------------------------------------------
  // createImportMap
  // ---------------------------------------------------------------------------------------

  /** A configured key `key` covers the specifier `lib`: equal to it, or a path prefix of it */
  predicate KeyMatches(key: string, lib: string) {
    key == lib || StartsWith(lib, key + "/")
  }

  /** Index of the first key that covers `lib` */
  function FirstMatch(keys: seq<string>, lib: string): (r: Option<nat>)
    ensures r.Some? ==> r.value < |keys| && KeyMatches(keys[r.value], lib)
    ensures r.Some? ==> forall j | 0 <= j < r.value :: !KeyMatches(keys[j], lib)
    ensures r.None? ==> forall j | 0 <= j < |keys| :: !KeyMatches(keys[j], lib)
  {
    if |keys| == 0 then None
    else if KeyMatches(keys[0], lib) then Some(0)
    else
      match FirstMatch(keys[1..], lib)
      case None => None
      case Some(j) => Some(j + 1)
  }

  /** `Object.keys(t).find((mod) => mod === lib || lib.startsWith(mod + '/'))` */
  function FindKey(t: Table, lib: string): Option<string> {
    var keys := Keys(t);
    match FirstMatch(keys, lib)
    case None => None
    case Some(i) => Some(keys[i])
  }

  /** `if (key)`: the key was found and, being a string, is not the falsy "" */
  predicate Truthy(key: Option<string>) {
    key.Some? && key.value != ""
  }

  /** The value `createImportMap` gives a key: the configured one for a non-empty configured key, else the service's */
  function ResolvedUrl(key: string, config: Table, resolve: Resolver): string {
    if key != "" && key in Keys(config) then Get(config, key).value else resolve(key, None)
  }

  /** What one specifier contributes to `createImportMap` (the callback of its `.map`) */
  function Contribution(lib: string, config: Table, resolve: Resolver): Table {
    if !IsBare(lib) then []
    else
      var key := FindKey(config, lib);
      if Truthy(key) then [Entry(key.value, Get(config, key.value).value)]
      else [Entry(lib, resolve(lib, None))]
  }

  /** `createImportMap(code, config)`, with `config.imports` given as `config` */
  function CreateImportMap(code: string, config: Table, resolve: Resolver): Table {
    var libs := GetImports(code);
    Reduce(seq(|libs|, i requires 0 <= i < |libs| => Contribution(libs[i], config, resolve)), [])
  }

  /**
   * A non-bare specifier contributes nothing. A bare one whose first covering configured key
   * `k` is not "" contributes `{k: config[k]}`; any other bare one contributes `{lib:
   * getModuleUrl(lib)}`. The value contributed is ResolvedUrl of the key, and the key is bare.
   */
  lemma ContributionSpec(lib: string, config: Table, resolve: Resolver)
    ensures !IsBare(lib) <==> Contribution(lib, config, resolve) == []
    ensures IsBare(lib) ==> |Contribution(lib, config, resolve)| == 1
    ensures IsBare(lib) ==>
      var e := Contribution(lib, config, resolve)[0];
      && KeyMatches(e.key, lib) && IsBare(e.key) && e.url == ResolvedUrl(e.key, config, resolve)
      && (e.key == lib || e.key in Keys(config))
    ensures IsBare(lib) ==>
      var e := Contribution(lib, config, resolve)[0];
      var i := FirstMatch(Keys(config), lib);
      if i.Some? && Keys(config)[i.value] != "" then e.key == Keys(config)[i.value]
      else e == Entry(lib, resolve(lib, None))
  {
    if IsBare(lib) {
      var e := Contribution(lib, config, resolve)[0];
      var key := FindKey(config, lib);
      if Truthy(key) {
        MatchingKeyIsBare(key.value, lib);
      }
    }
  }

  /**
   * The table createImportMap builds: each key appears once; every bare specifier of the code
   * has its entry (under the covering configured key, or under itself); every key comes from a
   * bare specifier of the code and is bare; every value is ResolvedUrl of its key.
   */
  lemma CreateImportMapSpec(code: string, config: Table, resolve: Resolver)
    ensures DistinctKeys(CreateImportMap(code, config, resolve))
    ensures forall lib | lib in GetImports(code) && IsBare(lib) ::
      var e := Contribution(lib, config, resolve)[0];
      Get(CreateImportMap(code, config, resolve), e.key) == Some(e.url)
    ensures forall e | e in CreateImportMap(code, config, resolve) ::
      && IsBare(e.key) && e.url == ResolvedUrl(e.key, config, resolve)
      && exists lib | lib in GetImports(code) :: IsBare(lib) && Contribution(lib, config, resolve) == [e]
  {
    var libs := GetImports(code);
    var ts := seq(|libs|, i requires 0 <= i < |libs| => Contribution(libs[i], config, resolve));
    var table := Reduce(ts, []);
    ReduceDistinct(ts, []);
    ReduceEntries(ts, []);
    ReduceKeys(ts, []);
    forall e | e in table
      ensures && IsBare(e.key) && e.url == ResolvedUrl(e.key, config, resolve)
              && exists lib | lib in libs :: IsBare(lib) && Contribution(lib, config, resolve) == [e]
    {
      var i :| 0 <= i < |ts| && e in ts[i];
      ContributionSpec(libs[i], config, resolve);
      assert ts[i] == [e];
    }
    forall lib | lib in libs && IsBare(lib)
      ensures Get(table, Contribution(lib, config, resolve)[0].key) == Some(Contribution(lib, config, resolve)[0].url)
    {
      ContributionSpec(lib, config, resolve);
      var e := Contribution(lib, config, resolve)[0];
      var i :| 0 <= i < |libs| && libs[i] == lib;
      assert e.key in Keys(ts[i]);
      var v := Get(table, e.key).value;
      assert Entry(e.key, v) in table;
    }
  }

  /** A bare specifier no configured key covers is resolved by the module URL service, under its own name */
  lemma FallbackResolved(code: string, config: Table, resolve: Resolver, lib: string)
    requires lib in GetImports(code) && IsBare(lib)
    requires forall k | k in Keys(config) :: !KeyMatches(k, lib)
    ensures Get(CreateImportMap(code, config, resolve), lib) == Some(resolve(lib, None))
  {
    ContributionSpec(lib, config, resolve);
    CreateImportMapSpec(code, config, resolve);
  }

  /** A code whose specifiers are all non-bare gets an empty table */
  lemma {:induction false} ReduceOfEmpties(ts: seq<Table>, acc: Table)
    requires forall i | 0 <= i < |ts| :: ts[i] == []
    ensures Reduce(ts, acc) == acc
    decreases |ts|
  {
    if |ts| > 0 {
      ReduceOfEmpties(ts[1..], acc);
    }
  }

  // ---------------------------------------------------------------------------------------
  // replaceImports
  // ---------------------------------------------------------------------------------------

  /**
   * The specifier the callback of `replaceImports` reads from a matched statement: the
   * statement with `importsPattern` replaced by `$2`, quotes removed.
   */
  function LibName(statement: string): string {
    StripQuotes(Render(Scan(statement, MatchImport), SecondGroup))
  }

  /** The replacement `'$2'` */
  function SecondGroup(text: string, g: ImportGroups): string {
    g.quoted
  }

  /** Scanning a matched statement on its own yields its second group, so the callback sees the specifier getImports saw */
  lemma LibNameOfStatement(t: string)
    requires MatchImport(t).Some?
    ensures LibName(t[..MatchImport(t).value.len]) == StripQuotes(MatchImport(t).value.groups.quoted)
  {
    var f := MatchImport(t).value;
    var u := t[..f.len];
    MatchImportAlone(t);
    ScanWholeMatch(u, MatchImport);
    var ps := [Hit(u, f.groups)];
    assert MatchImport(u) == MatchImport(t);
    assert MatchImport(u).value.len == |u| > 0;
    assert Scan(u, MatchImport) == ps;
    assert Render(ps, SecondGroup) == SecondGroup(u, f.groups) + Render(ps[1..], SecondGroup);
    assert Render(ps, SecondGroup) == f.groups.quoted;
  }

  /** The callback of `replaceImports` for one matched statement */
  function RewriteStatement(statement: string, table: Table): string {
    RewriteFor(statement, LibName(statement), table)
  }

  /** The callback's work once it knows the specifier `lib`: `statement.replace(key, importMap[key])` for the first covering key */
  function RewriteFor(statement: string, lib: string, table: Table): string {
    var key := FindKey(table, lib);
    if !Truthy(key) then statement
    else ReplaceFirst(statement, key.value, Get(table, key.value).value)
  }

  /** `replaceImports(code, config)` */
  function ReplaceImports(code: string, config: Table, resolve: Resolver): string {
    var table := CreateImportMap(code, config, resolve);
    Render(ScanImports(code), (statement, g: ImportGroups) => RewriteStatement(statement, table))
  }

  /**
   * Every statement the scan matched is its three groups put together, and the rewriting
   * callback acts on it as on the specifier getImports reported for it.
   */
  lemma RewriteOfScannedStatements(code: string, table: Table)
    ensures forall p | p in ScanImports(code) && p.Hit? ::
      && p.text == Statement(p.groups)
      && RewriteStatement(p.text, table) == RewriteFor(p.text, StripQuotes(p.groups.quoted), table)
  {
    var P := (text: string, g: ImportGroups) => text == Statement(g) && LibName(text) == StripQuotes(g.quoted);
    forall t: string | MatchImport(t).Some? && MatchImport(t).value.len <= |t|
      ensures P(t[..MatchImport(t).value.len], MatchImport(t).value.groups)
    {
      LibNameOfStatement(t);
      MatchImportSpec(t);
    }
    ScanHitsSatisfy(code, MatchImport, P);
  }

  /** Text with no import statement is returned as it is */
  lemma ReplaceImportsWithoutImports(code: string, config: Table, resolve: Resolver)
    requires GetImports(code) == []
    ensures ReplaceImports(code, config, resolve) == code
  {
    var table := CreateImportMap(code, config, resolve);
    RenderWithoutHits(ScanImports(code), (statement, g: ImportGroups) => RewriteStatement(statement, table));
    ScanTiles(code, MatchImport);
  }

  /** Text whose specifiers are all relative, absolute, remote, data: or blob: is returned as it is */
  lemma ReplaceImportsNonBareOnly(code: string, config: Table, resolve: Resolver)
    requires forall lib | lib in GetImports(code) :: !IsBare(lib)
    ensures CreateImportMap(code, config, resolve) == []
    ensures ReplaceImports(code, config, resolve) == code
  {
    var libs := GetImports(code);
    var ts := seq(|libs|, i requires 0 <= i < |libs| => Contribution(libs[i], config, resolve));
    ReduceOfEmpties(ts, []);
    var f := (statement, g: ImportGroups) => RewriteStatement(statement, []);
    RenderIdentity(ScanImports(code), f);
    ScanTiles(code, MatchImport);
  }

  /**
   * The rewriting of one statement: kept when no non-empty key covers the specifier, or when
   * the covering key does not occur in the statement as such (the quotes removed from the
   * specifier joined it); otherwise the first occurrence of the key, wherever it is in the
   * statement, becomes the key's URL, and the text before it (which holds no occurrence of the
   * key) and after it is kept.
   */
  lemma RewriteForSpec(statement: string, lib: string, table: Table)
    requires Truthy(FindKey(table, lib)) ==> '$' !in Get(table, FindKey(table, lib).value).value
    ensures !Truthy(FindKey(table, lib)) ==> RewriteFor(statement, lib, table) == statement
    ensures Truthy(FindKey(table, lib)) && !Contains(statement, FindKey(table, lib).value) ==>
      RewriteFor(statement, lib, table) == statement
    ensures Truthy(FindKey(table, lib)) && Contains(statement, FindKey(table, lib).value) ==>
      var k := FindKey(table, lib).value;
      var i := IndexOf(statement, k).value;
      && i + |k| <= |statement| && statement[i..i + |k|] == k
      && (forall j | 0 <= j < i :: !OccursAt(statement, k, j))
      && RewriteFor(statement, lib, table) == statement[..i] + Get(table, k).value + statement[i + |k|..]
  {
    var key := FindKey(table, lib);
    if Truthy(key) {
      ReplaceFirstPlain(statement, key.value, Get(table, key.value).value);
    }
  }

  // ---------------------------------------------------------------------------------------
  // One statement on its own
  // ---------------------------------------------------------------------------------------

  /** `import <binding> from <q><spec><q>;` */
  function OneImport(binding: string, q: char, spec: string): string {
    "import " + binding + " from " + ([q] + spec + [q] + ";")
  }

  /** A lone statement `import <binding> from "<spec>";` scans as one whole match with the expected groups */
  lemma ScanOneImport(binding: string, q: char, spec: string)
    requires All(binding, IsClauseChar) && IsQuote(q)
    requires forall c | c in spec :: !IsQuote(c) && !IsLineTerminator(c)
    ensures ScanImports(OneImport(binding, q, spec)) ==
      [Hit(OneImport(binding, q, spec), ImportGroups("import " + binding + " from ", [q] + spec + [q], ";"))]
  {
    var t := OneImport(binding, q, spec);
    assert t == "import " + binding + " from " + ([q] + spec + [q] + ";" + "");
    MatchImportFrom(t, binding, q, spec, "");
    ScanWholeMatch(t, MatchImport);
  }

  /**
   * For a lone statement, getImports reports its specifier, the table holds that specifier's
   * contribution alone, and replaceImports is the callback applied to the statement with that
   * specifier.
   */
  lemma ReplaceOneImport(binding: string, q: char, spec: string, config: Table, resolve: Resolver)
    requires All(binding, IsClauseChar) && IsQuote(q)
    requires forall c | c in spec :: !IsQuote(c) && !IsLineTerminator(c)
    ensures GetImports(OneImport(binding, q, spec)) == [spec]
    ensures CreateImportMap(OneImport(binding, q, spec), config, resolve) == Contribution(spec, config, resolve)
    ensures ReplaceImports(OneImport(binding, q, spec), config, resolve) ==
      RewriteFor(OneImport(binding, q, spec), spec, Contribution(spec, config, resolve))
  {
    var t := OneImport(binding, q, spec);
    var g := ImportGroups("import " + binding + " from ", [q] + spec + [q], ";");
    ScanOneImport(binding, q, spec);
    StripQuotesQuoted(q, spec);
    assert Hits(ScanImports(t)) == [g];
    assert GetImports(t) == [spec];
    var c := Contribution(spec, config, resolve);
    var ts := seq(1, i requires 0 <= i < 1 => Contribution([spec][i], config, resolve));
    assert ts == [c];
    assert Reduce(ts, []) == Spread([], c);
    ContributionSpec(spec, config, resolve);
    if c != [] {
      assert Spread([], c) == Spread([c[0]], c[1..]);
    }
    var table := CreateImportMap(t, config, resolve);
    assert table == c;
    MatchImportFrom(t, binding, q, spec, "");
    LibNameOfStatement(t);
    assert t[..|t|] == t;
    var f := (statement, g: ImportGroups) => RewriteStatement(statement, table);
    var ps := [Hit(t, g)];
    assert Render(ps, f) == f(t, g) + Render(ps[1..], f);
  }

  // ---------------------------------------------------------------------------------------
  // The key is replaced wherever it first occurs in the statement
  // ---------------------------------------------------------------------------------------

  /** A specifier whose first character starts none of the six prefixes of `isBare` is bare */
  lemma BareByFirstChar(spec: string)
    requires |spec| > 0 && spec[0] !in "h./db"
    ensures IsBare(spec)
  {
    forall p | p in NonBarePrefixes ensures !StartsWith(spec, p) {
      if |p| <= |spec| {
        assert spec[..|p|][0] == spec[0];
      }
    }
  }

  /** A configured non-empty key that covers a bare specifier is what the specifier contributes */
  lemma ConfiguredContribution(key: string, url: string, lib: string, resolve: Resolver)
    requires |key| > 0 && KeyMatches(key, lib) && IsBare(lib)
    ensures Contribution(lib, [Entry(key, url)], resolve) == [Entry(key, url)]
  {
    assert Keys([Entry(key, url)]) == [key];
  }

  /** With nothing configured, a bare specifier contributes itself and the service's URL for it */
  lemma FallbackContribution(lib: string, resolve: Resolver)
    requires IsBare(lib)
    ensures Contribution(lib, [], resolve) == [Entry(lib, resolve(lib, None))]
  {
  }

  /** A key covering a specifier and its one-entry table: the callback replaces the first occurrence of the key */
  lemma RewriteWithOneKey(statement: string, key: string, url: string, lib: string)
    requires |key| > 0 && KeyMatches(key, lib)
    ensures RewriteFor(statement, lib, [Entry(key, url)]) == ReplaceFirst(statement, key, url)
  {
    assert Keys([Entry(key, url)]) == [key];
  }

  /** Replacing a key that starts the specifier, when the key does not occur earlier in the statement */
  lemma ReplaceKeyOfSpecifier(binding: string, q: char, key: string, rest: string, url: string)
    requires |key| > 0 && IsQuote(q) && q !in key && '$' !in url
    requires !Contains("import " + binding + " from " + [q], key)
    ensures ReplaceFirst(OneImport(binding, q, key + rest), key, url) == OneImport(binding, q, url + rest)
  {
    var t := OneImport(binding, q, key + rest);
    var a := "import " + binding + " from " + [q];
    var b := key + (rest + [q] + ";");
    assert t == a + b;
    assert StartsWith(b, key) by {
      assert b[..|key|] == key;
    }
    IndexOfAfterLast(a, b, key);
    ReplaceFirstPlain(t, key, url);
    assert t[..|a|] == a;
    assert t[|a| + |key|..] == rest + [q] + ";";
    OneImportSplit(binding, q, url, rest);
  }

  lemma OneImportSplit(binding: string, q: char, x: string, y: string)
    ensures OneImport(binding, q, x + y) == "import " + binding + " from " + [q] + x + (y + [q] + ";")
  {
    var c := "import " + binding + " from ";
    assert [q] + (x + y) + [q] + ";" == [q] + x + (y + [q] + ";");
    assert c + ([q] + x + (y + [q] + ";")) == c + [q] + x + (y + [q] + ";");
  }

  /**
   * A subpath of a configured package: the key inside the specifier `<key>/<sub>` becomes the
   * configured URL and the rest of the path is kept after it, so `lodash/debounce` under
   * `{lodash: "https://cdn/lodash.js"}` becomes `https://cdn/lodash.js/debounce`. This holds
   * when the key does not occur earlier in the statement.
   */
  lemma SubpathRewritten(binding: string, q: char, key: string, sub: string, url: string, resolve: Resolver)
    requires All(binding, IsClauseChar) && IsQuote(q)
    requires |key| > 0 && IsBare(key + "/" + sub) && '$' !in url
    requires forall c | c in key + "/" + sub :: !IsQuote(c) && !IsLineTerminator(c)
    requires !Contains("import " + binding + " from " + [q], key)
    ensures ReplaceImports(OneImport(binding, q, key + "/" + sub), [Entry(key, url)], resolve)
      == OneImport(binding, q, url + "/" + sub)
  {
    var lib := key + "/" + sub;
    ReplaceOneImport(binding, q, lib, [Entry(key, url)], resolve);
    assert KeyMatches(key, lib) by {
      assert lib[..|key + "/"|] == key + "/";
    }
    ConfiguredContribution(key, url, lib, resolve);
    assert q !in key by {
      assert forall c | c in key :: c in lib;
    }
    SubpathRewriteFor(binding, q, key, sub, url);
  }

  lemma SubpathRewriteFor(binding: string, q: char, key: string, sub: string, url: string)
    requires IsQuote(q) && |key| > 0 && q !in key && '$' !in url
    requires !Contains("import " + binding + " from " + [q], key) && KeyMatches(key, key + "/" + sub)
    ensures RewriteFor(OneImport(binding, q, key + "/" + sub), key + "/" + sub, [Entry(key, url)])
      == OneImport(binding, q, url + "/" + sub)
  {
    var lib := key + "/" + sub;
    RewriteWithOneKey(OneImport(binding, q, lib), key, url, lib);
    assert key + "/" + sub == key + ("/" + sub);
    ReplaceKeyOfSpecifier(binding, q, key, "/" + sub, url);
    assert url + ("/" + sub) == url + "/" + sub;
  }

  /**
   * The statement as written: a default import named after its package, with no configured
   * key, has its binding name replaced by the package's URL while its specifier is kept, as in
   * `import axios from "axios";`.
   */
  lemma BindingRewritten(lib: string, q: char, resolve: Resolver)
    requires |lib| > 0 && All(lib, IsWordChar) && IsBare(lib) && IsQuote(q)
    requires !Contains("import ", lib) && '$' !in resolve(lib, None)
    ensures ReplaceImports(OneImport(lib, q, lib), [], resolve) == OneImport(resolve(lib, None), q, lib)
  {
    var url := resolve(lib, None);
    WordName(lib);
    ReplaceOneImport(lib, q, lib, [], resolve);
    FallbackContribution(lib, resolve);
    RewriteWithOneKey(OneImport(lib, q, lib), lib, url, lib);
    ReplaceBindingName(lib, q, url);
  }

  /** A name of word characters is a possible binding and a possible specifier */
  lemma WordName(name: string)
    requires All(name, IsWordChar)
    ensures All(name, IsClauseChar)
    ensures forall c | c in name :: !IsQuote(c) && !IsLineTerminator(c) && c != ' '
  {
    forall i | 0 <= i < |name| ensures IsClauseChar(name[i]) {
      assert IsWordChar(name[i]);
    }
    forall c | c in name ensures !IsQuote(c) && !IsLineTerminator(c) && c != ' ' {
      var i :| 0 <= i < |name| && name[i] == c;
      assert IsWordChar(name[i]);
    }
  }

  /**
   * The first occurrence of the binding name is the binding, for any name without a blank that
   * does not occur in the keyword `import ` (every name but `i`, `m`, `im`, `port` and the like)
   */
  lemma ReplaceBindingName(lib: string, q: char, url: string)
    requires |lib| > 0 && ' ' !in lib && !Contains("import ", lib) && '$' !in url
    ensures ReplaceFirst(OneImport(lib, q, lib), lib, url) == OneImport(url, q, lib)
  {
    var t := OneImport(lib, q, lib);
    var b := lib + (" from " + ([q] + lib + [q] + ";"));
    assert t == "import " + b;
    assert StartsWith(b, lib) by {
      assert b[..|lib|] == lib;
    }
    IndexOfAfterLast("import ", b, lib);
    ReplaceFirstPlain(t, lib, url);
    assert t[..7] == "import ";
    assert t[7 + |lib|..] == " from " + ([q] + lib + [q] + ";");
  }

  /** The smallest case of the above: `import axios from "axios";` with nothing configured */
  lemma AxiosBindingRewritten(resolve: Resolver)
    requires '$' !in resolve("axios", None)
    ensures ReplaceImports(OneImport("axios", '"', "axios"), [], resolve)
      == OneImport(resolve("axios", None), '"', "axios")
  {
    BareByFirstChar("axios");
    BindingRewritten("axios", '"', resolve);
  }

  /**
   * A package named after part of the keyword, as `import port from "port";` with nothing
   * configured: the first occurrence of `port` is inside `import`, so the keyword is broken.
   */
  lemma KeywordPartRewritten(resolve: Resolver)
    requires '$' !in resolve("port", None)
    ensures ReplaceImports(OneImport("port", '"', "port"), [], resolve)
      == "im" + resolve("port", None) + " port from \"port\";"
  {
    var url := resolve("port", None);
    var t := OneImport("port", '"', "port");
    BareByFirstChar("port");
    WordName("port");
    ReplaceOneImport("port", '"', "port", [], resolve);
    FallbackContribution("port", resolve);
    RewriteWithOneKey(t, "port", url, "port");
    ReplaceKeywordPart(url);
  }

  /** The replacement itself: `port` is first found at index 2 of `import port from "port";` */
  lemma ReplaceKeywordPart(url: string)
    requires '$' !in url
    ensures ReplaceFirst(OneImport("port", '"', "port"), "port", url) == "im" + url + " port from \"port\";"
  {
    var t := OneImport("port", '"', "port");
    var a, rest := "im", " port from \"port\";";
    var b := "port" + rest;
    assert t == a + b;
    assert StartsWith(b, "port") by {
      assert b[..4] == "port";
    }
    IndexOfAfterLast(a, b, "port");
    ReplaceFirstPlain(t, "port", url);
    assert t[..2] == a && t[6..] == b[4..] == rest;
  }

  // ---------------------------------------------------------------------------------------
  // The rewriting confined to the specifier
  // ---------------------------------------------------------------------------------------

  /** The callback with the key replaced inside the quoted specifier only */
  function RewriteSpecifier(g: ImportGroups, table: Table): string {
    var key := FindKey(table, StripQuotes(g.quoted));
    if !Truthy(key) then Statement(g)
    else g.clause + ReplaceFirst(g.quoted, key.value, Get(table, key.value).value) + g.terminator
  }

  /** `replaceImports` with the key replaced inside the specifier of each statement */
  function ReplaceImportsInSpecifiers(code: string, config: Table, resolve: Resolver): string {
    var table := CreateImportMap(code, config, resolve);
    Render(ScanImports(code), (statement, g: ImportGroups) => RewriteSpecifier(g, table))
  }

  /**
   * The clause and the terminator of the statement are kept, and so are the quotes; the
   * specifier becomes the URL of its covering key followed by what the specifier has after the
   * key. With no covering key the statement is kept.
   */
  lemma RewriteSpecifierSpec(g: ImportGroups, q: char, lib: string, table: Table)
    requires IsQuote(q) && g.quoted == [q] + lib + [q] && forall c | c in lib :: !IsQuote(c)
    requires Truthy(FindKey(table, lib)) ==> '$' !in Get(table, FindKey(table, lib).value).value
    ensures !Truthy(FindKey(table, lib)) ==> RewriteSpecifier(g, table) == Statement(g)
    ensures Truthy(FindKey(table, lib)) ==>
      var k := FindKey(table, lib).value;
      && |k| <= |lib|
      && RewriteSpecifier(g, table) == Statement(g.(quoted := [q] + (Get(table, k).value + lib[|k|..]) + [q]))
  {
    StripQuotesQuoted(q, lib);
    var key := FindKey(table, lib);
    if Truthy(key) {
      var k := key.value;
      var url := Get(table, k).value;
      KeyIsPrefix(k, lib);
      ReplaceInQuoted(q, lib, k, url);
    }
  }

  /** A key that covers a specifier is a prefix of it */
  lemma KeyIsPrefix(k: string, lib: string)
    requires KeyMatches(k, lib)
    ensures StartsWith(lib, k)
  {
    if k != lib {
      assert lib[..|k|] == lib[..|k| + 1][..|k|];
    }
  }

  /** Replacing a non-empty prefix of a quote-free quoted text touches the text inside the quotes only */
  lemma ReplaceInQuoted(q: char, lib: string, k: string, url: string)
    requires IsQuote(q) && (forall c | c in lib :: !IsQuote(c))
    requires |k| > 0 && StartsWith(lib, k) && '$' !in url
    ensures ReplaceFirst([q] + lib + [q], k, url) == [q] + (url + lib[|k|..]) + [q]
  {
    var s := [q] + lib + [q];
    assert k[0] == lib[0];
    assert StartsWith(lib + [q], k) by {
      assert (lib + [q])[..|k|] == lib[..|k|];
    }
    assert [q] + (lib + [q]) == s;
    IndexOfAfter([q], lib + [q], k);
    ReplaceFirstPlain(s, k, url);
    assert s[..1] == [q];
    assert s[1 + |k|..] == lib[|k|..] + [q];
  }

  /** The groups of a lone statement put back together are the statement */
  lemma OneImportStatement(binding: string, q: char, spec: string)
    ensures Statement(ImportGroups("import " + binding + " from ", [q] + spec + [q], ";")) == OneImport(binding, q, spec)
  {
    var c := "import " + binding + " from ";
    assert c + ([q] + spec + [q]) + ";" == c + ([q] + spec + [q] + ";");
  }

  /**
   * A lone statement with the rewriting confined to the specifier: a non-bare or empty
   * specifier is kept, and otherwise the specifier becomes the URL of the key the table has for
   * it followed by what the specifier has after that key, with the clause untouched.
   */
  lemma SpecifierRewrittenAlone(binding: string, q: char, spec: string, config: Table, resolve: Resolver)
    requires All(binding, IsClauseChar) && IsQuote(q)
    requires forall c | c in spec :: !IsQuote(c) && !IsLineTerminator(c)
    requires forall e | e in Contribution(spec, config, resolve) :: '$' !in e.url
    ensures Contribution(spec, config, resolve) == [] || spec == [] ==>
      ReplaceImportsInSpecifiers(OneImport(binding, q, spec), config, resolve) == OneImport(binding, q, spec)
    ensures Contribution(spec, config, resolve) != [] && spec != [] ==>
      var e := Contribution(spec, config, resolve)[0];
      && |e.key| <= |spec|
      && ReplaceImportsInSpecifiers(OneImport(binding, q, spec), config, resolve) == OneImport(binding, q, e.url + spec[|e.key|..])
  {
    var g := ImportGroups("import " + binding + " from ", [q] + spec + [q], ";");
    InSpecifiersAlone(binding, q, spec, config, resolve);
    OneImportStatement(binding, q, spec);
    var table := Contribution(spec, config, resolve);
    ContributionSpec(spec, config, resolve);
    if table != [] {
      var e := table[0];
      assert table == [e];
      assert Keys(table) == [e.key];
      assert FindKey(table, spec) == Some(e.key);
      StripQuotesQuoted(q, spec);
      RewriteSpecifierSpec(g, q, spec, table);
      if spec != [] {
        assert e.key != [];
        OneImportStatement(binding, q, e.url + spec[|e.key|..]);
      }
    }
  }

  /** For a lone statement, the rewriting confined to the specifier is the callback applied to its groups with the specifier's contribution */
  lemma InSpecifiersAlone(binding: string, q: char, spec: string, config: Table, resolve: Resolver)
    requires All(binding, IsClauseChar) && IsQuote(q)
    requires forall c | c in spec :: !IsQuote(c) && !IsLineTerminator(c)
    ensures ReplaceImportsInSpecifiers(OneImport(binding, q, spec), config, resolve) ==
      RewriteSpecifier(ImportGroups("import " + binding + " from ", [q] + spec + [q], ";"), Contribution(spec, config, resolve))
  {
    var t := OneImport(binding, q, spec);
    var g := ImportGroups("import " + binding + " from ", [q] + spec + [q], ";");
    ReplaceOneImport(binding, q, spec, config, resolve);
    ScanOneImport(binding, q, spec);
    var table := Contribution(spec, config, resolve);
    var f := (statement, g: ImportGroups) => RewriteSpecifier(g, table);
    var ps := [Hit(t, g)];
    assert Render(ps, f) == f(t, g) + Render(ps[1..], f);
  }

  /** With the rewriting confined to the specifier, the binding name is kept and the specifier becomes the URL */
  lemma BindingKept(lib: string, q: char, resolve: Resolver)
    requires |lib| > 0 && All(lib, IsWordChar) && IsBare(lib) && IsQuote(q) && '$' !in resolve(lib, None)
    ensures ReplaceImportsInSpecifiers(OneImport(lib, q, lib), [], resolve) == OneImport(lib, q, resolve(lib, None))
  {
    WordName(lib);
    FallbackContribution(lib, resolve);
    SpecifierRewrittenAlone(lib, q, lib, [], resolve);
    assert resolve(lib, None) + lib[|lib|..] == resolve(lib, None);
  }

  lemma SubpathTail(key: string, sub: string, url: string)
    ensures url + (key + "/" + sub)[|key|..] == url + "/" + sub
  {
    assert (key + "/" + sub)[|key|..] == "/" + sub;
  }

  /** With the rewriting confined to the specifier, a subpath of a configured key is rewritten whatever the binding */
  lemma SubpathKept(binding: string, q: char, key: string, sub: string, url: string, resolve: Resolver)
    requires All(binding, IsClauseChar) && IsQuote(q)
    requires |key| > 0 && IsBare(key + "/" + sub) && '$' !in url
    requires forall c | c in key + "/" + sub :: !IsQuote(c) && !IsLineTerminator(c)
    ensures ReplaceImportsInSpecifiers(OneImport(binding, q, key + "/" + sub), [Entry(key, url)], resolve)
      == OneImport(binding, q, url + "/" + sub)
  {
    var lib := key + "/" + sub;
    assert KeyMatches(key, lib) by {
      assert lib[..|key + "/"|] == key + "/";
    }
    ConfiguredContribution(key, url, lib, resolve);
    SpecifierRewrittenAlone(binding, q, lib, [Entry(key, url)], resolve);
    SubpathTail(key, sub, url);
  }
}
