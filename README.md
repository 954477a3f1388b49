# agenticdriven website: language handling and install commands, in Dafny

This project models two pieces of the agenticdriven website's front end.

**The internationalisation provider** (`website/src/i18n/LanguageContext.jsx`):

- the six translation catalogs, and the `languages` list the selector shows;
- the key-path lookup `t`, which walks a dotted path through the active catalog. It returns the path itself when the walk fails, and an inner object when the path stops at one;
- `getInitialLanguage`, which picks the first supported code in this order:
  1. the URL's `/xx` prefix;
  2. the stored choice;
  3. the browser locale;
  4. `en`;
- the effect that runs whenever the language is set. It stores the code, sets the document language, and rewrites the URL's language prefix. It replaces the URL only when the path changes, and keeps the hash.

**The home page's install commands** (`website/src/pages/HomePage.jsx`). Each IDE's display name becomes the argument of the download script through four steps:

1. lower-case the name;
2. turn every whitespace run into `-`;
3. drop the first `github-`;
4. shorten the first `claude-code` to `claude`.

The JavaScript string operations these rely on are modelled once, in module `Text`:

- `split` on one character;
- ASCII `toLowerCase`;
- the global `/\s+/g` replacement;
- `replace` with a string pattern, which rewrites only the first occurrence.

Browser state is never read or written. The pathname, the stored value, the browser locale and the hash are parameters. The effect step returns the writes it would make, as an `Effects` value.

Files:

- `wrappers.dfy`: `Option` and map lookup.
- `text.dfy`: the string operations.
- `language_context.dfy`: the provider.
- `home_page.dfy`: the IDE table, the script argument and the command.

`t` is a loop that updates `value` step by step. It is modelled as the method `TranslateLoop`, whose loop invariant ties it to the function `Translate`. The properties of `t` are proved about `Translate`.

The resolution order follows the code. The URL prefix is consulted first, before the stored value.

## Model

| member | source | states |
|---|---|---|
| LanguageContext.Lookup | website/src/i18n/LanguageContext.jsx:74-80 | the walk steps only into objects: a walk that succeeds with keys left started at an object holding the first key, and a string with keys left fails |
| LanguageContext.Resolve | website/src/i18n/LanguageContext.jsx:71-72 | a language without a catalog finds nothing; the empty path splits into the one key `""` |
| LanguageContext.Translate | website/src/i18n/LanguageContext.jsx:70-83 | `t`: anything other than the path itself is what the walk found, a string among them is non-empty, and a failed walk gives the path |
| LanguageContext.TranslateLoop | website/src/i18n/LanguageContext.jsx:70-83 | the loop over the split path returns exactly `Translate`: the path on a failed walk, otherwise `value \|\| path` |
| LanguageContext.WithFallback | website/src/i18n/LanguageContext.jsx:82 | `value \|\| path`: a miss or an empty string gives the path; a non-empty string or an inner object is returned as found |
| LanguageContext.LookupAppend | website/src/i18n/LanguageContext.jsx:74-80 | walking `a + b` is walking `a`, then `b` from where it ended |
| LanguageContext.LookupStopsEarly | website/src/i18n/LanguageContext.jsx:75-79 | once a non-final step finds nothing or a string, the whole walk fails |
| LanguageContext.TranslateMiss | website/src/i18n/LanguageContext.jsx:78-82 | a path the catalog does not hold renders as the path |
| LanguageContext.TranslateStopsEarly | website/src/i18n/LanguageContext.jsx:75-79 | a path that meets a missing key or a string before its last segment renders as the path |
| LanguageContext.TranslateFindsLeaf | website/src/i18n/LanguageContext.jsx:70-83 | a non-empty string stored at segments `keys` is what `t` renders for those segments joined by `.` |
| LanguageContext.TranslateEmptyLeaf | website/src/i18n/LanguageContext.jsx:82 | an empty catalog string is falsy, so the path is rendered instead |
| LanguageContext.TranslateInnerNode | website/src/i18n/LanguageContext.jsx:82 | a path that stops at an inner object yields that object |
| LanguageContext.TranslateExample | website/src/i18n/LanguageContext.jsx:70-83 | on `{"a": {"b": "Hello"}}`: `a.b` gives Hello; `a.c` and `a.b.c` give the path back |
| LanguageContext.PathCode | website/src/i18n/LanguageContext.jsx:27 | the capture of `/^\/([a-z]{2})(\/\|$)/`: two lower-case letters after a leading slash, followed by a slash or the end |
| LanguageContext.PathCodeOfPrefixed | website/src/i18n/LanguageContext.jsx:27 | every `/xx` and `/xx/...` with lower-case `xx` is matched, with `xx` as the capture |
| LanguageContext.PathCodeExamples | website/src/i18n/LanguageContext.jsx:27 | `/es` and `/es/x` match; `/esp` and `/ES/` do not |
| LanguageContext.BrowserCode | website/src/i18n/LanguageContext.jsx:39 | `navigator.language.split('-')[0]` is the locale up to its first `-` |
| LanguageContext.FirstSupported | website/src/i18n/LanguageContext.jsx:24-45 | first-match rule: a supported code taken from the candidates, or `en` |
| LanguageContext.InitialLanguage | website/src/i18n/LanguageContext.jsx:24-45 | the result is always a supported code. Priority: a supported URL code, else a supported stored value, else a supported browser code, else `en` |
| LanguageContext.InitialLanguageIsFirstSupported | website/src/i18n/LanguageContext.jsx:24-45 | the resolution equals the first-match rule over [URL code, stored value, browser code] |
| LanguageContext.InitialLanguageExamples | website/src/i18n/LanguageContext.jsx:24-45 | `es-MX` gives `es`; `fr-FR` gives `en`; `/de/...` beats a stored `ru`; `/fr/...` falls through to the stored `ru` |
| LanguageContext.InitialLanguageHasCatalog | website/src/i18n/LanguageContext.jsx:11-45 | with one catalog per supported code, the starting language always has a catalog, so `t` walks it |
| LanguageContext.InitialLanguageAsWritten | website/src/i18n/LanguageContext.jsx:28-40 | with membership tested by truthiness, the result is a catalog key or an inherited property name; an inherited name can only come from storage or the locale |
| LanguageContext.AsWrittenAgrees | website/src/i18n/LanguageContext.jsx:24-45 | without inherited names in storage or the locale, the code as written and `InitialLanguage` agree |
| LanguageContext.InheritedStoredName | website/src/i18n/LanguageContext.jsx:33-35 | a stored `toString` becomes the language, although no catalog and no `languages` entry has it; the corrected rule gives `en` |
| LanguageContext.StripCode | website/src/i18n/LanguageContext.jsx:59 | the `/xx` prefix and the slash after it become one `/`; paths without a prefix are unchanged |
| LanguageContext.LocalizedPath | website/src/i18n/LanguageContext.jsx:62 | the new path starts with `/language` |
| LanguageContext.LocalizedPathReplacesCode | website/src/i18n/LanguageContext.jsx:59-62 | `/xx/rest` becomes `/language/rest`; `/xx` and `/xx/` become `/language` |
| LanguageContext.LocalizedPathPrepends | website/src/i18n/LanguageContext.jsx:59-62 | a path without a code is kept whole behind `/language`; `/` becomes `/language` |
| LanguageContext.LocalizedPathRoundTrip | website/src/i18n/LanguageContext.jsx:59-62 | the rewritten path's prefix, read back by the URL regex, is the active language |
| LanguageContext.LocalizedPathIdempotent | website/src/i18n/LanguageContext.jsx:59-62 | rewriting a rewritten path changes nothing |
| LanguageContext.PersistLanguage | website/src/i18n/LanguageContext.jsx:50-68 | stores the language, sets the document language, and replaces the URL (new path plus hash) exactly when the path changes |
| LanguageContext.PersistLanguageSettles | website/src/i18n/LanguageContext.jsx:50-68 | running the effect again on the URL it produced replaces nothing |
| LanguageContext.ReloadRestoresLanguage | website/src/i18n/LanguageContext.jsx:24-68 | after the effect has run, a fresh resolution yields the language that was set, whatever the browser locale |
| LanguageContext.SupportedCodesAreTwoLetter | website/src/i18n/LanguageContext.jsx:11-18 | every catalog key is two lower-case letters, so the URL regex can match it |
| LanguageContext.FindLanguage | website/src/components/LanguageSelector.jsx:10 | `languages.find`: the first descriptor with that code; none exactly when no descriptor has it |
| LanguageContext.LanguagesMatchCatalogs | website/src/i18n/LanguageContext.jsx:100-107 | the `languages` codes are exactly the `translations` keys, each listed once |
| LanguageContext.SelectorFindsInitialLanguage | website/src/components/LanguageSelector.jsx:10 | the selector finds a descriptor for every language the provider resolves |
| Text.Split | website/src/i18n/LanguageContext.jsx:71 | `split`: at least one part; no part contains the separator; the first part is the text before the first separator |
| Text.JoinSplit | website/src/i18n/LanguageContext.jsx:71 | joining the parts of a split gives the original string |
| Text.SplitJoin | website/src/i18n/LanguageContext.jsx:71 | splitting joined separator-free parts gives the parts back |
| Text.LowerChar | website/src/pages/HomePage.jsx:261 | an upper-case ASCII letter moves to its lower-case partner; every other character is unchanged |
| Text.ToLower | website/src/pages/HomePage.jsx:261 | `toLowerCase`: same length, no upper-case letter left, exactly the upper-case letters changed |
| Text.CollapseSpaces | website/src/pages/HomePage.jsx:261 | `replace(/\s+/g, '-')`: no whitespace is left and the text never grows |
| Text.CollapseSpec | website/src/pages/HomePage.jsx:261 | `replace(/\s+/g, '-')` leaves no whitespace, never lengthens, and adds only `-` |
| Text.CollapseNoSpace | website/src/pages/HomePage.jsx:261 | text without whitespace passes through unchanged |
| Text.CollapseSpacesIdempotent | website/src/pages/HomePage.jsx:261 | the whitespace rewrite is idempotent |
| Text.CollapseAppend | website/src/pages/HomePage.jsx:261 | the rewrite of `a + b` is the rewrite of `a`, then of `b` resumed in the run state `a` left |
| Text.CollapseAllSpace | website/src/pages/HomePage.jsx:261 | a whole whitespace run emits one `-` when it starts a run, and nothing when it continues one |
| Text.CollapseSpacesRun | website/src/pages/HomePage.jsx:261 | a word, a whitespace run of any length, then more text: the run becomes exactly one `-` |
| Text.CollapseWords | website/src/pages/HomePage.jsx:261 | two words joined by one space become the words joined by `-` |
| Text.IndexOf | website/src/pages/HomePage.jsx:261 | a found position is an occurrence of the pattern |
| Text.IndexOfSpec | website/src/pages/HomePage.jsx:261 | the position found is the first occurrence; nothing is found only when there is no occurrence |
| Text.AbsentFirstChar | website/src/pages/HomePage.jsx:261 | no match when the pattern's first character is absent from every possible start |
| Text.IndexOfAtStart | website/src/pages/HomePage.jsx:261 | text that starts with the pattern matches at 0 |
| Text.ReplaceFirst | website/src/pages/HomePage.jsx:261 | `replace` with a string pattern: the first occurrence becomes the replacement; the text before and after is kept; no occurrence means no change |
| HomePage.CollapsedLowerIsSlug | website/src/pages/HomePage.jsx:261 | collapsing the whitespace of lower-cased text leaves neither whitespace nor upper-case letters |
| HomePage.ReplaceFirstKeepsSlug | website/src/pages/HomePage.jsx:261 | replacing by slug text keeps slug text |
| HomePage.IdeParam | website/src/pages/HomePage.jsx:261 | for every name, the script argument has no whitespace and no upper-case ASCII letter |
| HomePage.InstallCommand | website/src/pages/HomePage.jsx:262 | the command is the fixed script invocation, immediately followed by the argument |
| HomePage.InstallCommandInjective | website/src/pages/HomePage.jsx:262 | two names give the same command exactly when they give the same argument |
| HomePage.SingleWord | website/src/pages/HomePage.jsx:261 | a short one-word name without `g` is only lower-cased |
| HomePage.GithubPrefixed | website/src/pages/HomePage.jsx:261 | a name that lower-cases to `github`, a space and a short word yields just that word |
| HomePage.IdeParamsOfTable | website/src/pages/HomePage.jsx:8-15 | row by row, the table gives cursor, claude, windsurf, copilot, aider and continue |
| HomePage.IdesDistinct | website/src/pages/HomePage.jsx:8-15 | the six names, which key the rows, are distinct, and so are the six script arguments |
| HomePage.ClaudeCodeParam | website/src/pages/HomePage.jsx:261 | `Claude Code` becomes `claude-code` and then `claude` |
| HomePage.GitHubCopilotParam | website/src/pages/HomePage.jsx:261 | `GitHub Copilot` becomes `github-copilot` and then `copilot` |
| HomePage.RewriteScope | website/src/pages/HomePage.jsx:261 | the whitespace rewrite is global (`A B  C` gives `a-b-c`); the `github-` rewrite is first-only (`GitHub GitHub` gives `github`) |
| HomePage.LowercaseFirstMatters | website/src/pages/HomePage.jsx:261 | without lower-casing first, `GitHub-Copilot` would keep its prefix; with it, `copilot` |

## Left out

- React plumbing is not modelled. This covers the context object, `useState`, the `useEffect` dependency list and the provider-missing error in `useLanguage`. The effect is modelled as the function it runs once per language change.
- Browser I/O is not modelled. This covers `window.location`, `localStorage`, `navigator.language`, `document.documentElement.lang`, `history.replaceState` and the clipboard. Values read become parameters, and writes become an `Effects` value.
- The JSON catalog contents are not modelled; the catalogs are a parameter of `Translate`, which accepts any map. The shape of `translations`, one catalog per supported code, is the predicate `CatalogsComplete`; `InitialLanguageHasCatalog` assumes it.
- LanguageContext.PersistLanguage: the query string is not an input. The source replaces the URL with the new path plus the hash, so a query string is dropped as well.
- Text.ReplaceFirst: `$` patterns in the replacement (`$&`, `` $` ``, `$'`, `$$`) are not expanded. The site's replacements, `""` and `claude`, contain no `$`.
- LanguageContext.TranslateLoop: a catalog value is either a string or an object (`Node`). Numbers, arrays and `null` in a catalog are not modelled. Reading an inherited property of an object during the walk (a key such as `toString`) is not modelled either.
- Text.ToLower: lower-cases ASCII letters only. Non-ASCII case mappings of `toLowerCase` are not modelled, because the IDE names are ASCII.
- Text.CollapseSpaces: treats the six ASCII whitespace characters as `\s`. The Unicode spaces that JavaScript's `\s` also matches are not modelled.
- The rest of the site is not part of this model. That covers the selector's rendering and click handling, the other pages, and the page layout around the commands.

## Findings

| source | as written | input that shows it | evidently intended | confidence | as-written member | corrected member |
|---|---|---|---|---|---|---|
| website/src/i18n/LanguageContext.jsx:33-41 | `translations[stored]` tests truthiness, so names inherited from `Object.prototype` pass | stored value `toString` with path `/` and locale `en-US` | accept only the six catalog keys (stored `toString` gives `en`) | medium, not executed | LanguageContext.InheritedStoredName | LanguageContext.InitialLanguage |

With the code as written, the active language becomes `toString`. Then `languages.find` in `website/src/components/LanguageSelector.jsx:10` yields nothing, and the selector reads `.flag` from that missing entry. The rest of the model uses the corrected `InitialLanguage`, whose result is always one of the six codes (`SelectorFindsInitialLanguage`).
