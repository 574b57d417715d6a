# FreeIns website: locale handling of URL paths

This project models, in Dafny, how the FreeIns marketing website handles its
eight locales:

- `I18n` (`i18n.dfy`) holds the locale list `zh, en, es, vi, id, fr, ms, ar`.
  It also holds the per-request configuration. A requested locale is kept only
  if it is listed, and otherwise becomes `zh`. When the message catalogue fails
  to load, the configuration falls back to `zh` and its catalogue.
- `Navigation` (`navigation.dfy`) holds three parts of the navigation bar:
  - the language menu, which filters the language table down to the listed
    locales;
  - the language switch, which splits the current path on `/`, then overwrites
    segment 1 if it is a locale or inserts the new locale there if it is not,
    then joins the segments again;
  - the per-locale links of the navigation entries.
- `JsStrings` (`js_strings.dfy`) gives the JavaScript `split` and `join` for a
  one-character separator. With `n` separators, `split` gives `n + 1` pieces,
  so `"".split("/")` is `[""]` and `"/".split("/")` is `["", ""]`.
- `Wrappers` (`wrappers.dfy`) gives `Option`. It stands for a request locale
  that may be `undefined`.

The language switch is a method. It works on an array of segments: it
assigns index 1 in place, or it splices the new locale in with a copying
loop. It is proved equal to the specification function `ChangeLanguagePath`.
The lemmas about that function are proved from two facts about `split` and
`join`: each undoes the other.

## Model

| member | source | states |
|---|---|---|
| JsStrings.Split | freeins-website/src/components/Navigation.tsx:43 | `split('/')` gives one piece more than there are separators, and no piece contains the separator |
| JsStrings.Join | freeins-website/src/components/Navigation.tsx:50 | `join('/')` of no pieces is empty; `JoinLength`, `JoinOccurrences`, `JoinSplit` and `SplitJoin` state the rest, the last two making it the inverse of `Split` |
| JsStrings.JoinLength | freeins-website/src/components/Navigation.tsx:50 | a join of one or more pieces is exactly as long as the pieces together plus one separator between each two of them |
| JsStrings.JoinOccurrences | freeins-website/src/components/Navigation.tsx:50 | joining separator-free pieces puts exactly one separator between each two consecutive pieces |
| JsStrings.JoinSplit | freeins-website/src/components/Navigation.tsx:43-50 | joining the pieces of a split with the same separator gives back the original path |
| JsStrings.SplitJoin | freeins-website/src/components/Navigation.tsx:43-50 | splitting a join of one or more separator-free pieces gives back exactly those pieces |
| I18n.LocalesWellFormed | freeins-website/src/lib/i18n.ts:3 | the locale list has eight pairwise distinct codes, and `zh` is the first |
| I18n.IsLocale | freeins-website/src/lib/i18n.ts:7 | `locales.includes`: every listed code is two characters long and free of `/`, so it is a single path segment; `LocalesWellFormed` describes the list it tests against |
| I18n.ValidLocale | freeins-website/src/lib/i18n.ts:7 | the validated locale is always listed; it equals the request when the request is listed; it is `zh` when the request is unlisted or undefined |
| I18n.ValidLocaleIdempotent | freeins-website/src/lib/i18n.ts:7 | validating an already validated locale changes nothing |
| I18n.MessagesPath | freeins-website/src/lib/i18n.ts:12 | the catalogue path of a locale is `../messages/`, the locale, then `.json`, so the locale can be read back from it |
| I18n.MessagesPathInjective | freeins-website/src/lib/i18n.ts:12 | distinct locales load distinct catalogues |
| I18n.GetRequestConfig | freeins-website/src/lib/i18n.ts:5-21 | the configured locale is always listed; the catalogue path always matches it; on a load failure it is `zh` whatever was requested; otherwise it is the validated locale |
| I18n.RequestConfigKeepsRequest | freeins-website/src/lib/i18n.ts:7-20 | the served locale is either `zh` or the request; a request other than `zh` is served exactly when it is listed and its catalogue loads |
| Navigation.SupportedAmong | freeins-website/src/components/Navigation.tsx:23 | the filtered table is an order-preserving sublist of the input; an entry is kept if and only if its code is a listed locale, and each entry occurs in the result exactly as often as in the input when its code is listed, otherwise never |
| Navigation.SupportedAmongAll | freeins-website/src/components/Navigation.tsx:23 | a table whose every code is a locale passes the filter unchanged |
| Navigation.SupportedLanguagesAreLocales | freeins-website/src/components/Navigation.tsx:12-23 | the menu offers the whole language table, and its codes are exactly the locale list in order |
| Navigation.HasLocaleSegment | freeins-website/src/components/Navigation.tsx:45 | `locales.includes(segments[1])`: a path with no segment 1 (where JavaScript reads `undefined`) never has a locale segment, and a locale segment is free of `/` |
| Navigation.Relocalized | freeins-website/src/components/Navigation.tsx:45-49 | segment 1 becomes the new locale and segment 0 is kept. Replace branch: same count, every other segment unchanged. Insert branch (segment 1 missing or not a locale): one segment more, segments from index 1 on shifted up by one |
| Navigation.Splice | freeins-website/src/components/Navigation.tsx:48 | `splice(start, 0, item)` yields the old elements before `start`, then `item`, then the rest |
| Navigation.ChangeLanguagePath | freeins-website/src/components/Navigation.tsx:43-50 | the path handed to the router starts with the unchanged segment 0, a `/` and the new locale; its partner lemmas `ChangeLanguageReplace`, `ChangeLanguageInsert`, `ChangeLanguageIdempotent` and `ChangeLanguageRoundTrip` state the rest |
| Navigation.ChangeLanguage | freeins-website/src/components/Navigation.tsx:42-51 | the path handed to the router is the join of the rewritten segments of the current path |
| Navigation.ChangeLanguageSegments | freeins-website/src/components/Navigation.tsx:43-50 | for a new locale without `/`, splitting the target path gives exactly the rewritten segments |
| Navigation.ChangeLanguageSetsLocale | freeins-website/src/components/Navigation.tsx:45-48 | in both branches, segment 1 of the target path is the new locale |
| Navigation.ChangeLanguageReplace | freeins-website/src/components/Navigation.tsx:45-46 | when segment 1 is a locale, the target is the same text with only that segment swapped; the segment count and all other segments are kept |
| Navigation.ChangeLanguageInsert | freeins-website/src/components/Navigation.tsx:47-48 | when segment 1 is missing or not a locale, the target is the same text with `/` and the locale inserted after segment 0. It has one segment more, and the old segments from 1 on sit at 2 on |
| Navigation.ChangeLanguageIdempotent | freeins-website/src/components/Navigation.tsx:42-51 | switching again to the same listed locale leaves the target path unchanged |
| Navigation.ChangeLanguageRoundTrip | freeins-website/src/components/Navigation.tsx:45-46 | on a path whose segment 1 is locale A: switching to a listed locale B and back to A restores the original path |
| Navigation.LocalizedHref | freeins-website/src/components/Navigation.tsx:69 | a link starts with `/` and the locale; the home entry `/` gives exactly `/` plus the locale; any other entry path follows unchanged |
| Navigation.LocalizedHrefSegments | freeins-website/src/components/Navigation.tsx:130 | a link built from a rooted entry path has an empty segment 0 and the locale as segment 1 |
| Navigation.LocalizedHrefSwitch | freeins-website/src/components/Navigation.tsx:66-73 | switching from locale A to locale B on an entry's link in A gives that entry's link in B |
| Navigation.NavigationLinksSwitch | freeins-website/src/components/Navigation.tsx:34-40 | every one of the five navigation entries follows a language switch to the same entry in the new locale |

## Left out

- React rendering: the JSX, the menus and transitions, and the translated entry names. The `router.push` navigation itself is also left out; only the path it receives is modelled.
- The dynamic import of the message catalogues in `freeins-website/src/lib/i18n.ts`. This is module loading. The `console.error` report in the failure branch is output only and is not modelled either. Whether the first import fails is a boolean input. The catalogue is represented by its module path. If the fallback import of `zh.json` fails too, the source rejects the whole call; that case is not modelled.
- Navigation.Splice: JavaScript arrays grow in place, Dafny arrays do not. The splice copies into a fresh array one longer, and the switch continues on that array.
- JsStrings.Split: only single-character separators are modelled, the only kind the site uses. The `limit` argument and regular-expression separators are not.
- The `locale = 'zh'` default of the navigation bar's property is not modelled separately. It only chooses the locale of the links and of the highlighted menu entry.
- The locale middleware (`freeins-website/src/middleware.ts`), because its redirects and path matcher are the i18n library's behaviour. The layout's `notFound` check is left out too.
- The backend (login, token checks, page CRUD), the contact form and the content pages. They are network, database, hashing and token calls with no locale logic of their own.
