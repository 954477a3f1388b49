/**
 * The site's internationalisation layer: the six translation catalogs, the
 * key-path lookup `t`, the choice of the initial language, and what the
 * provider does each time the active language is set (persist it, mark the
 * document language, rewrite the URL's language prefix).
 *
 * Browser state is never touched here: the pathname, the stored value, the
 * browser locale and the hash are parameters, and the effect step returns the
 * writes it would make as an `Effects` value.
 */
module LanguageContext {
  import opened Wrappers
  import opened Text

  // ---------------------------------------------------------------------------
  // Catalogs

  /** A catalog tree: every leaf is a localised string, every inner node a mapping from keys. */
  datatype Node = Leaf(text: string) | Map(children: map<string, Node>)

  /** The keys of `translations`: the languages the site ships catalogs for. */
  const SupportedCodes: set<string> := {"en", "es", "zh", "de", "ru", "hi"}

  const DefaultLanguage: string := "en"

  /** The shape of `translations`: one catalog for each supported code and none besides. */
  predicate CatalogsComplete(catalogs: map<string, Node>) {
    catalogs.Keys == SupportedCodes
  }

  const KeySeparator: char := '.'

  /**
   * Strict walk of a key path: each segment selects a child of a mapping.
   * None when a segment is absent or when a leaf is reached with segments left.
   */
  function Lookup(node: Node, keys: seq<string>): (r: Option<Node>)
    ensures |keys| > 0 && r.Some? ==> node.Map? && keys[0] in node.children
    ensures node.Leaf? && |keys| > 0 ==> r == None
    decreases |keys|
  {
    if keys == [] then Some(node)
    else match node
      case Leaf(_) => None
      case Map(children) =>
        if keys[0] in children then Lookup(children[keys[0]], keys[1..]) else None
  }

  /** Walking a path in two pieces is walking the first piece and then the second from where it ended. */
  lemma {:induction false} LookupAppend(node: Node, a: seq<string>, b: seq<string>)
    ensures Lookup(node, a + b) == match Lookup(node, a) case None => None case Some(n) => Lookup(n, b)
    decreases |a|
  {
    if a == [] {
      assert a + b == b;
    } else {
      assert (a + b)[0] == a[0] && (a + b)[1..] == a[1..] + b;
      match node
      case Leaf(_) =>
      case Map(children) =>
        if a[0] in children {
          LookupAppend(children[a[0]], a[1..], b);
        }
    }
  }

  /**
   * Once a non-final step of the walk finds nothing, or finds a leaf where a
   * mapping is needed, the whole walk fails.
   */
  lemma LookupStopsEarly(node: Node, keys: seq<string>, i: nat)
    requires i < |keys|
    requires Lookup(node, keys[..i]).None? || Lookup(node, keys[..i]).value.Leaf?
    ensures Lookup(node, keys) == None
  {
    assert keys == keys[..i] + keys[i..];
    LookupAppend(node, keys[..i], keys[i..]);
  }

  /** The catalog walk for the active language, on the segments of a dotted key path. */
  function Resolve(catalogs: map<string, Node>, language: string, path: string): (r: Option<Node>)
    ensures language !in catalogs ==> r == None
    ensures language in catalogs && path == "" ==> r == Lookup(catalogs[language], [""])
  {
    if language in catalogs then Lookup(catalogs[language], Split(path, KeySeparator)) else None
  }

  /**
   * The `value || path` policy: a miss and an empty leaf (both falsy) give the
   * path back; a non-empty leaf and an inner mapping (truthy) are returned as found.
   */
  function WithFallback(found: Option<Node>, path: string): (r: Node)
    ensures r.Map? <==> found.Some? && found.value.Map?
    ensures r.Map? ==> found == Some(r)
    ensures r.Leaf? ==> r == Leaf(path) || (found == Some(r) && r.text != "")
    ensures found.None? || found == Some(Leaf("")) ==> r == Leaf(path)
    ensures found.Some? && found.value.Leaf? && found.value.text != "" ==> r == found.value
  {
    match found
    case None => Leaf(path)
    case Some(Leaf(s)) => if s == "" then Leaf(path) else Leaf(s)
    case Some(Map(m)) => Map(m)
  }

  /** `t(path)` under `language`, as a function. */
  function Translate(catalogs: map<string, Node>, language: string, path: string): (r: Node)
    ensures r != Leaf(path) ==> Resolve(catalogs, language, path) == Some(r)
    ensures r.Leaf? && r != Leaf(path) ==> r.text != ""
    ensures Resolve(catalogs, language, path).None? ==> r == Leaf(path)
  {
    WithFallback(Resolve(catalogs, language, path), path)
  }

  /**
   * `t(path)` as the provider runs it: split the path, start at the active
   * catalog, step into `value[key]` while `value` is a mapping, and give the path
   * back as soon as it is not. The result is the same as Translate.
   */
  method TranslateLoop(catalogs: map<string, Node>, language: string, path: string) returns (r: Node)
    ensures r == Translate(catalogs, language, path)
  {
    var keys := Split(path, KeySeparator);
    var value := Get(catalogs, language);
    var i := 0;
    while i < |keys|
      invariant 0 <= i <= |keys|
      invariant value.None? ==> Resolve(catalogs, language, path) == None
      invariant value.Some? ==> Resolve(catalogs, language, path) == Lookup(value.value, keys[i..])
    {
      if value.Some? && value.value.Map? {
        assert keys[i..][1..] == keys[i + 1..];
        value := Get(value.value.children, keys[i]);
      } else {
        return Leaf(path);
      }
      i := i + 1;
    }
    r := WithFallback(value, path);
  }

  /** A key path the catalog does not hold renders as the path itself. */
  lemma TranslateMiss(catalogs: map<string, Node>, language: string, path: string)
    requires Resolve(catalogs, language, path) == None
    ensures Translate(catalogs, language, path) == Leaf(path)
  {
  }

  /**
   * When some non-final segment of the path meets a missing key or a string
   * (as in "a.b.c" where "a.b" is a leaf), `t` gives the path back unchanged.
   */
  lemma TranslateStopsEarly(catalogs: map<string, Node>, language: string, path: string, i: nat)
    requires language in catalogs
    requires i < |Split(path, KeySeparator)|
    requires var prefix := Lookup(catalogs[language], Split(path, KeySeparator)[..i]);
      prefix.None? || prefix.value.Leaf?
    ensures Translate(catalogs, language, path) == Leaf(path)
  {
    LookupStopsEarly(catalogs[language], Split(path, KeySeparator), i);
  }

  /**
   * A non-empty string stored in the catalog at segments `keys` is what `t`
   * renders for the dotted path made of those segments.
   */
  lemma TranslateFindsLeaf(catalogs: map<string, Node>, language: string, keys: seq<string>, s: string)
    requires language in catalogs
    requires |keys| >= 1 && forall i :: 0 <= i < |keys| ==> KeySeparator !in keys[i]
    requires Lookup(catalogs[language], keys) == Some(Leaf(s)) && s != ""
    ensures Translate(catalogs, language, Join(keys, KeySeparator)) == Leaf(s)
  {
    SplitJoin(keys, KeySeparator);
  }

  /** An empty string in the catalog is falsy, so `t` renders the path instead. */
  lemma TranslateEmptyLeaf(catalogs: map<string, Node>, language: string, path: string)
    requires Resolve(catalogs, language, path) == Some(Leaf(""))
    ensures Translate(catalogs, language, path) == Leaf(path)
  {
  }

  /** A path that stops at an inner mapping yields that mapping, not a string. */
  lemma TranslateInnerNode(catalogs: map<string, Node>, language: string, path: string)
    requires Resolve(catalogs, language, path).Some? && Resolve(catalogs, language, path).value.Map?
    ensures Translate(catalogs, language, path) == Resolve(catalogs, language, path).value
    ensures Translate(catalogs, language, path).Map?
  {
  }

  /** The catalog `{"a": {"b": "Hello"}}` under `en`: "a.b", "a.c" and "a.b.c". */
  lemma TranslateExample()
    ensures var catalogs := map["en" := Map(map["a" := Map(map["b" := Leaf("Hello")])])];
      && Translate(catalogs, "en", "a.b") == Leaf("Hello")
      && Translate(catalogs, "en", "a.c") == Leaf("a.c")
      && Translate(catalogs, "en", "a.b.c") == Leaf("a.b.c")
  {
    TranslateExampleTwoKeys();
    TranslateExamplePastLeaf();
  }

  const ExampleCatalogs: map<string, Node> := map["en" := Map(map["a" := Map(map["b" := Leaf("Hello")])])]

  /** Two-key paths: one reaches the leaf, one names a child that is missing. */
  lemma TranslateExampleTwoKeys()
    ensures Translate(ExampleCatalogs, "en", "a.b") == Leaf("Hello")
    ensures Translate(ExampleCatalogs, "en", "a.c") == Leaf("a.c")
  {
    assert Join(["a", "b"], '.') == "a.b";
    SplitJoin(["a", "b"], '.');
    assert Join(["a", "c"], '.') == "a.c";
    SplitJoin(["a", "c"], '.');
  }

  lemma TranslateExamplePastLeaf()
    ensures Translate(ExampleCatalogs, "en", "a.b.c") == Leaf("a.b.c")
  {
    assert Join(["a", "b", "c"], '.') == "a.b.c";
    SplitJoin(["a", "b", "c"], '.');
    assert Split("a.b.c", '.')[..2] == ["a", "b"];
    var b := Map(map["b" := Leaf("Hello")]);
    assert Lookup(ExampleCatalogs["en"], ["a", "b"]) == Lookup(b, ["b"]) by {
      assert ["a", "b"][1..] == ["b"];
    }
    assert Lookup(b, ["b"]) == Lookup(Leaf("Hello"), []) by {
      assert ["b"][1..] == [];
    }
    TranslateStopsEarly(ExampleCatalogs, "en", "a.b.c", 2);
  }

  // ---------------------------------------------------------------------------
  // Initial language

  predicate IsTwoLetterCode(c: string) {
    |c| == 2 && IsAsciiLower(c[0]) && IsAsciiLower(c[1])
  }

  /** What may follow the code in a language-prefixed path: nothing, or a `/`. */
  predicate IsPathRest(rest: string) {
    rest == [] || rest[0] == '/'
  }

  lemma SupportedCodesAreTwoLetter(c: string)
    requires c in SupportedCodes
    ensures IsTwoLetterCode(c)
  {
  }

  /**
   * The capture of `/^\/([a-z]{2})(\/|$)/` on a pathname: a slash, two
   * lower-case ASCII letters, then a slash or the end of the path.
   */
  function PathCode(path: string): (r: Option<string>)
    ensures r.Some? ==> IsTwoLetterCode(r.value) && |path| >= 3 && IsPathRest(path[3..])
    ensures r.Some? ==> path == "/" + r.value + path[3..]
  {
    if |path| >= 3 && path[0] == '/' && IsAsciiLower(path[1]) && IsAsciiLower(path[2])
       && (|path| == 3 || path[3] == '/')
    then Some(path[1..3])
    else None
  }

  /** Every path of the form `/xx` or `/xx/...` is recognised, with `xx` as its code. */
  lemma PathCodeOfPrefixed(c: string, rest: string)
    requires IsTwoLetterCode(c) && IsPathRest(rest)
    ensures PathCode("/" + c + rest) == Some(c)
  {
    var p := "/" + c + rest;
    assert p[1..3] == c;
    assert |p| > 3 ==> p[3] == rest[0];
  }

  /** `/es` and `/es/x` carry `es`; `/esp` and `/ES/` carry no code. */
  lemma PathCodeExamples()
    ensures PathCode("/es") == Some("es")
    ensures PathCode("/es/x") == Some("es")
    ensures PathCode("/esp") == None
    ensures PathCode("/ES/") == None
  {
    PathCodeOfPrefixed("es", "");
    PathCodeOfPrefixed("es", "/x");
    assert "/es" + "" == "/es" && "/es" + "/x" == "/es/x";
  }

  /** `navigator.language.split('-')[0]`: the locale up to its first `-`. */
  function BrowserCode(locale: string): (r: string)
    ensures '-' !in r
    ensures |r| <= |locale| && r == locale[..|r|]
    ensures |r| < |locale| ==> locale[|r|] == '-'
  {
    Split(locale, '-')[0]
  }

  /**
   * First match wins: the first candidate that is a supported code, or the
   * default when none is.
   */
  function FirstSupported(candidates: seq<Option<string>>): (r: string)
    ensures r in SupportedCodes
    ensures r == DefaultLanguage || Some(r) in candidates
    ensures (exists k :: 0 <= k < |candidates| && SupportedIn(candidates[k])) ==>
      exists k :: 0 <= k < |candidates| && SupportedIn(candidates[k]) && candidates[k].value == r &&
        forall j :: 0 <= j < k ==> !SupportedIn(candidates[j])
    ensures (forall k :: 0 <= k < |candidates| ==> !SupportedIn(candidates[k])) ==> r == DefaultLanguage
  {
    if candidates == [] then DefaultLanguage
    else if candidates[0].Some? && candidates[0].value in SupportedCodes then candidates[0].value
    else FirstSupported(candidates[1..])
  }

  predicate SupportedIn(candidate: Option<string>) {
    candidate.Some? && candidate.value in SupportedCodes
  }

  /**
   * `getInitialLanguage`: the URL's language prefix, then the stored choice,
   * then the browser locale, then `en`, each only when it names a supported
   * language.
   */
  function InitialLanguage(pathname: string, stored: Option<string>, locale: string): (r: string)
    ensures r in SupportedCodes
    ensures SupportedIn(PathCode(pathname)) ==> r == PathCode(pathname).value
    ensures !SupportedIn(PathCode(pathname)) && SupportedIn(stored) ==> r == stored.value
    ensures !SupportedIn(PathCode(pathname)) && !SupportedIn(stored) && BrowserCode(locale) in SupportedCodes
      ==> r == BrowserCode(locale)
    ensures !SupportedIn(PathCode(pathname)) && !SupportedIn(stored) && BrowserCode(locale) !in SupportedCodes
      ==> r == DefaultLanguage
  {
    var urlCode := PathCode(pathname);
    if urlCode.Some? && urlCode.value in SupportedCodes then urlCode.value
    else if stored.Some? && stored.value in SupportedCodes then stored.value
    else
      var browser := BrowserCode(locale);
      if browser in SupportedCodes then browser else DefaultLanguage
  }

  /** The resolution is the first-match rule over the URL code, the stored value and the browser code, in that order. */
  lemma InitialLanguageIsFirstSupported(pathname: string, stored: Option<string>, locale: string)
    ensures InitialLanguage(pathname, stored, locale)
         == FirstSupported([PathCode(pathname), stored, Some(BrowserCode(locale))])
  {
    var cs := [PathCode(pathname), stored, Some(BrowserCode(locale))];
    assert cs[1..] == [stored, Some(BrowserCode(locale))];
    assert cs[1..][1..] == [Some(BrowserCode(locale))];
    assert cs[1..][1..][1..] == [];
    assert FirstSupported(cs[1..][1..][1..]) == DefaultLanguage;
    assert FirstSupported(cs[1..][1..])
        == if BrowserCode(locale) in SupportedCodes then BrowserCode(locale) else DefaultLanguage;
  }

  /** `es-MX` with nothing else gives `es`; `fr-FR` gives the default. */
  lemma InitialLanguageExamples()
    ensures InitialLanguage("/", None, "es-MX") == "es"
    ensures InitialLanguage("/", None, "fr-FR") == "en"
    ensures InitialLanguage("/de/rules", Some("ru"), "es-MX") == "de"
    ensures InitialLanguage("/fr/rules", Some("ru"), "es-MX") == "ru"
  {
    BrowserExamples();
    PathExamples();
  }

  lemma BrowserExamples()
    ensures InitialLanguage("/", None, "es-MX") == "es"
    ensures InitialLanguage("/", None, "fr-FR") == "en"
  {
    assert Join(["es", "MX"], '-') == "es-MX";
    SplitJoin(["es", "MX"], '-');
    assert Join(["fr", "FR"], '-') == "fr-FR";
    SplitJoin(["fr", "FR"], '-');
  }

  lemma PathExamples()
    ensures InitialLanguage("/de/rules", Some("ru"), "es-MX") == "de"
    ensures InitialLanguage("/fr/rules", Some("ru"), "es-MX") == "ru"
  {
    PathCodeOfPrefixed("de", "/rules");
    assert "/de" + "/rules" == "/de/rules";
    PathCodeOfPrefixed("fr", "/rules");
    assert "/fr" + "/rules" == "/fr/rules";
  }

  /**
   * With one catalog per supported code, the language the provider starts in
   * always has a catalog, so `t` walks that catalog rather than failing at once.
   */
  lemma InitialLanguageHasCatalog(catalogs: map<string, Node>, pathname: string, stored: Option<string>, locale: string, path: string)
    requires CatalogsComplete(catalogs)
    ensures InitialLanguage(pathname, stored, locale) in catalogs
    ensures var language := InitialLanguage(pathname, stored, locale);
      Resolve(catalogs, language, path) == Lookup(catalogs[language], Split(path, KeySeparator))
  {
  }

  // ---------------------------------------------------------------------------
  // Membership as the source tests it

  /**
   * Property names every plain JavaScript object inherits from
   * `Object.prototype`; reading one of them from `translations` yields a
   * function or an object, which is truthy.
   */
  const InheritedNames: set<string> := {
    "constructor", "hasOwnProperty", "isPrototypeOf", "propertyIsEnumerable",
    "toLocaleString", "toString", "valueOf", "__proto__",
    "__defineGetter__", "__defineSetter__", "__lookupGetter__", "__lookupSetter__"
  }

  /** `translations[name]` is truthy: an own catalog key or an inherited member. */
  predicate TruthyEntry(name: string) {
    name in SupportedCodes || name in InheritedNames
  }

  /**
   * `getInitialLanguage` with membership tested the way the code tests it,
   * by the truthiness of `translations[name]`.
   */
  function InitialLanguageAsWritten(pathname: string, stored: Option<string>, locale: string): (r: string)
    ensures TruthyEntry(r)
    ensures r !in SupportedCodes ==> Some(r) == stored || r == BrowserCode(locale)
  {
    var urlCode := PathCode(pathname);
    if urlCode.Some? && TruthyEntry(urlCode.value) then urlCode.value
    else if stored.Some? && TruthyEntry(stored.value) then stored.value
    else
      var browser := BrowserCode(locale);
      if TruthyEntry(browser) then browser else DefaultLanguage
  }

  /** No inherited name is two characters long, so a URL prefix can never name one. */
  lemma InheritedNamesAreLong(name: string)
    requires name in InheritedNames
    ensures |name| > 2
  {
  }

  /**
   * Where neither the stored value nor the browser code is an inherited name,
   * the code as written and the model agree.
   */
  lemma AsWrittenAgrees(pathname: string, stored: Option<string>, locale: string)
    requires stored.Some? ==> stored.value !in InheritedNames
    requires BrowserCode(locale) !in InheritedNames
    ensures InitialLanguageAsWritten(pathname, stored, locale) == InitialLanguage(pathname, stored, locale)
  {
    if PathCode(pathname).Some? && PathCode(pathname).value in InheritedNames {
      InheritedNamesAreLong(PathCode(pathname).value);
    }
  }

  /**
   * A stored `toString` passes the code's membership test and becomes the
   * active language, although no catalog and no selector entry has that code.
   */
  lemma InheritedStoredName()
    ensures InitialLanguageAsWritten("/", Some("toString"), "en-US") == "toString"
    ensures "toString" !in SupportedCodes
    ensures FindLanguage(Languages, "toString").None?
    ensures InitialLanguage("/", Some("toString"), "en-US") == "en"
  {
    InheritedStoredNameAccepted();
    InheritedStoredNameUnknown();
  }

  lemma InheritedStoredNameAccepted()
    ensures InitialLanguageAsWritten("/", Some("toString"), "en-US") == "toString"
    ensures InitialLanguage("/", Some("toString"), "en-US") == "en"
  {
    assert Join(["en", "US"], '-') == "en-US";
    SplitJoin(["en", "US"], '-');
  }

  lemma InheritedStoredNameUnknown()
    ensures "toString" !in SupportedCodes
    ensures FindLanguage(Languages, "toString").None?
  {
    assert forall i :: 0 <= i < |Languages| ==> |Languages[i].code| == 2;
  }

  // ---------------------------------------------------------------------------
  // Persisting the active language

  /** The writes the provider makes after the language changes. */
  datatype Effects = Effects(storedLanguage: string, documentLanguage: string, replaceUrl: Option<string>)

  /**
   * `pathname.replace(/^\/[a-z]{2}(\/|$)/, '/')`: a leading `/xx` together with
   * the slash after it, if any, becomes one `/`; any two lower-case letters
   * count here, supported or not.
   */
  function StripCode(path: string): (r: string)
    ensures PathCode(path).None? ==> r == path
    ensures PathCode(path).Some? ==> r != [] && r[0] == '/'
    ensures PathCode(path).Some? ==> path == "/" + PathCode(path).value + (if |path| == 3 then "" else r)
    ensures PathCode(path).Some? && |path| == 3 ==> r == "/"
  {
    if PathCode(path).Some? then (if |path| == 3 then "/" else path[3..]) else path
  }

  /** The pathname the provider wants: `/language` followed by the stripped path unless that is just `/`. */
  function LocalizedPath(language: string, path: string): (r: string)
    ensures |r| >= 1 + |language| && r[..1 + |language|] == "/" + language
  {
    var rest := StripCode(path);
    "/" + language + (if rest == "/" then "" else rest)
  }

  /**
   * The effect of setting `language` while the browser shows `pathname` and
   * `hash`: store the code, set the document language, and replace the URL
   * (keeping the hash) only when the pathname changes.
   */
  function PersistLanguage(language: string, pathname: string, hash: string): (e: Effects)
    ensures e.storedLanguage == language && e.documentLanguage == language
    ensures e.replaceUrl.Some? <==> pathname != LocalizedPath(language, pathname)
    ensures e.replaceUrl.Some? ==> e.replaceUrl.value == LocalizedPath(language, pathname) + hash
  {
    var newPath := LocalizedPath(language, pathname);
    Effects(language, language, if pathname != newPath then Some(newPath + hash) else None)
  }

  /**
   * Only the first two-letter segment is replaced: `/xx/rest` becomes
   * `/language/rest`, `/xx` and `/xx/` become `/language`.
   */
  lemma LocalizedPathReplacesCode(language: string, c: string, rest: string)
    requires IsTwoLetterCode(c) && IsPathRest(rest)
    ensures LocalizedPath(language, "/" + c + rest)
         == "/" + language + (if rest == "" || rest == "/" then "" else rest)
  {
    PathCodeOfPrefixed(c, rest);
    var p := "/" + c + rest;
    assert |p| > 3 ==> p[3..] == rest;
  }

  /** A path without a code prefix is kept whole behind `/language`; `/` alone gives `/language`. */
  lemma LocalizedPathPrepends(language: string, path: string)
    requires PathCode(path).None?
    ensures LocalizedPath(language, path) == "/" + language + (if path == "/" then "" else path)
  {
  }

  /** The rewritten path carries the active language as its code. */
  lemma LocalizedPathRoundTrip(language: string, path: string)
    requires IsTwoLetterCode(language)
    requires IsPathRest(path)
    ensures PathCode(LocalizedPath(language, path)) == Some(language)
  {
    var rest := StripCode(path);
    var tail := if rest == "/" then "" else rest;
    assert IsPathRest(rest);
    assert LocalizedPath(language, path) == "/" + language + tail;
    PathCodeOfPrefixed(language, tail);
  }

  /** Rewriting an already rewritten path changes nothing. */
  lemma LocalizedPathIdempotent(language: string, path: string)
    requires IsTwoLetterCode(language)
    requires IsPathRest(path)
    ensures LocalizedPath(language, LocalizedPath(language, path)) == LocalizedPath(language, path)
  {
    var rest := StripCode(path);
    var tail := if rest == "/" then "" else rest;
    assert IsPathRest(rest);
    assert LocalizedPath(language, path) == "/" + language + tail;
    LocalizedPathReplacesCode(language, language, tail);
  }

  /** Running the effect again on the URL it produced does not call `replaceState`. */
  lemma PersistLanguageSettles(language: string, pathname: string, hash: string)
    requires IsTwoLetterCode(language)
    requires IsPathRest(pathname)
    ensures PersistLanguage(language, LocalizedPath(language, pathname), hash).replaceUrl == None
  {
    LocalizedPathIdempotent(language, pathname);
  }

  /**
   * A reload after the effect has run resolves to the language that was set,
   * whatever the browser locale: the rewritten URL names it, and so does the
   * stored value.
   */
  lemma ReloadRestoresLanguage(language: string, pathname: string, hash: string, locale: string)
    requires language in SupportedCodes
    requires IsPathRest(pathname)
    ensures var e := PersistLanguage(language, pathname, hash);
      var shown := if e.replaceUrl.Some? then LocalizedPath(language, pathname) else pathname;
      InitialLanguage(shown, Some(e.storedLanguage), locale) == language
  {
    SupportedCodesAreTwoLetter(language);
    LocalizedPathRoundTrip(language, pathname);
  }

  // ---------------------------------------------------------------------------
  // The language descriptors the selector shows

  datatype LanguageInfo = LanguageInfo(code: string, name: string, flag: string)

  const Languages: seq<LanguageInfo> := [
    LanguageInfo("en", "English", "\U{1F1EC}\U{1F1E7}"),
    LanguageInfo("es", "Español", "\U{1F1EA}\U{1F1F8}"),
    LanguageInfo("zh", "中文", "\U{1F1E8}\U{1F1F3}"),
    LanguageInfo("de", "Deutsch", "\U{1F1E9}\U{1F1EA}"),
    LanguageInfo("ru", "Русский", "\U{1F1F7}\U{1F1FA}"),
    LanguageInfo("hi", "हिन्दी", "\U{1F1EE}\U{1F1F3}")
  ]

  /** `languages.find(lang => lang.code === code)`: the first descriptor with that code. */
  function FindLanguage(infos: seq<LanguageInfo>, code: string): (r: Option<LanguageInfo>)
    ensures r.Some? ==> r.value in infos && r.value.code == code
    ensures r.None? <==> forall i :: 0 <= i < |infos| ==> infos[i].code != code
    ensures r.Some? ==>
      exists k :: 0 <= k < |infos| && infos[k] == r.value && forall j :: 0 <= j < k ==> infos[j].code != code
  {
    if infos == [] then None
    else if infos[0].code == code then Some(infos[0])
    else FindLanguage(infos[1..], code)
  }

  /** The selector's codes are exactly the catalog keys, each listed once. */
  lemma LanguagesMatchCatalogs()
    ensures (set i | 0 <= i < |Languages| :: Languages[i].code) == SupportedCodes
    ensures forall i, j :: 0 <= i < j < |Languages| ==> Languages[i].code != Languages[j].code
  {
    var codes := set i | 0 <= i < |Languages| :: Languages[i].code;
    assert Languages[0].code == "en" && Languages[1].code == "es" && Languages[2].code == "zh";
    assert Languages[3].code == "de" && Languages[4].code == "ru" && Languages[5].code == "hi";
    assert codes <= SupportedCodes;
    assert SupportedCodes <= codes;
  }

  /** The selector always finds a descriptor for the language the provider resolves. */
  lemma SelectorFindsInitialLanguage(pathname: string, stored: Option<string>, locale: string)
    ensures FindLanguage(Languages, InitialLanguage(pathname, stored, locale)).Some?
  {
    var code := InitialLanguage(pathname, stored, locale);
    LanguagesMatchCatalogs();
    assert code in (set i | 0 <= i < |Languages| :: Languages[i].code);
  }
}
