/** The locale handling of the navigation bar: the language menu, the
    language switch that rewrites the current URL path, and the per-locale
    links of the navigation entries. */
module Navigation {
  import opened JsStrings
  import opened I18n

  // ---------------------------------------------------------------------------
  // The language menu

  /** An entry of the language table: a locale code and its display name. */
  datatype Language = Language(code: string, name: string)

  /** The full language table, in menu order. */
  const AllLanguages: seq<Language> := [
    Language("zh", "简体中文"),
    Language("en", "English"),
    Language("es", "Español"),
    Language("vi", "Tiếng Việt"),
    Language("id", "Bahasa Indonesia"),
    Language("fr", "Français"),
    Language("ms", "Bahasa Melayu"),
    Language("ar", "العربية")
  ]

  /** `a` is `b` with some elements dropped and the rest in their order. */
  predicate IsSubsequence<T(==)>(a: seq<T>, b: seq<T>)
    decreases |b|
  {
    if a == [] then true
    else if b == [] then false
    else (a[0] == b[0] && IsSubsequence(a[1..], b[1..])) || IsSubsequence(a, b[1..])
  }

  /** `langs.filter(lang => locales.includes(lang.code))`: the entries whose
      code is a locale, in their original order. */
  function SupportedAmong(langs: seq<Language>): (supported: seq<Language>)
    ensures IsSubsequence(supported, langs)
    ensures forall l :: l in supported ==> l in langs && IsLocale(l.code)
    ensures forall l :: l in langs && IsLocale(l.code) ==> l in supported
    ensures forall l :: multiset(supported)[l] == if IsLocale(l.code) then multiset(langs)[l] else 0
  {
    if langs == [] then []
    else
      assert multiset(langs) == multiset{langs[0]} + multiset(langs[1..]) by {
        assert langs == [langs[0]] + langs[1..];
      }
      if IsLocale(langs[0].code) then
        assert ([langs[0]] + SupportedAmong(langs[1..]))[1..] == SupportedAmong(langs[1..]);
        [langs[0]] + SupportedAmong(langs[1..])
      else SupportedAmong(langs[1..])
  }

  /** The languages offered in the menu. */
  const SupportedLanguages: seq<Language> := SupportedAmong(AllLanguages)

  /** A table whose every code is a locale passes the filter whole. */
  lemma {:induction false} SupportedAmongAll(langs: seq<Language>)
    requires forall i :: 0 <= i < |langs| ==> IsLocale(langs[i].code)
    ensures SupportedAmong(langs) == langs
  {
    if langs != [] {
      SupportedAmongAll(langs[1..]);
    }
  }

  /** Every language of the table is offered, so the menu lists exactly the
      locale codes, in the order of the locale list. */
  lemma SupportedLanguagesAreLocales()
    ensures SupportedLanguages == AllLanguages
    ensures |SupportedLanguages| == |Locales|
    ensures forall i :: 0 <= i < |Locales| ==> SupportedLanguages[i].code == Locales[i]
  {
    assert forall i :: 0 <= i < |AllLanguages| ==> AllLanguages[i].code == Locales[i];
    SupportedAmongAll(AllLanguages);
  }

  // ---------------------------------------------------------------------------
  // The language switch

  /** `locales.includes(segments[1])`; a missing `segments[1]` is `undefined`,
      which is never a locale. */
  predicate HasLocaleSegment(segments: seq<string>)
    ensures |segments| <= 1 ==> !HasLocaleSegment(segments)
    ensures HasLocaleSegment(segments) ==> Slash !in segments[1]
  {
    |segments| > 1 && IsLocale(segments[1])
  }

  /** The segments after the switch: the locale segment overwritten, or the new
      locale inserted at index 1. */
  function Relocalized(segments: seq<string>, newLocale: string): (result: seq<string>)
    requires |segments| >= 1
    ensures |result| >= 2 && result[0] == segments[0] && result[1] == newLocale
    ensures HasLocaleSegment(segments) ==>
      |result| == |segments| &&
      forall i :: 0 <= i < |segments| && i != 1 ==> result[i] == segments[i]
    ensures !HasLocaleSegment(segments) ==>
      |result| == |segments| + 1 &&
      forall i :: 1 <= i < |segments| ==> result[i + 1] == segments[i]
  {
    if HasLocaleSegment(segments) then segments[1 := newLocale]
    else [segments[0], newLocale] + segments[1..]
  }

  /** The path the language switch navigates to. */
  function ChangeLanguagePath(pathname: string, newLocale: string): (target: string)
    ensures var first := Split(pathname, Slash)[0];
      |first| + 1 + |newLocale| <= |target| &&
      target[..|first| + 1 + |newLocale|] == first + [Slash] + newLocale
  {
    var segments := Relocalized(Split(pathname, Slash), newLocale);
    var rest := Join(segments[1..], Slash);
    assert Join(segments, Slash) == segments[0] + [Slash] + rest;
    JoinStartsWithFirst(segments[1..], Slash);
    Join(segments, Slash)
  }

  /** `a.splice(start, 0, item)`: `item` inserted before index `start`, the
      elements from `start` on shifted up by one. */
  method Splice(a: array<string>, start: nat, item: string) returns (grown: array<string>)
    requires start <= a.Length
    ensures fresh(grown)
    ensures grown[..] == a[..start] + [item] + a[start..]
  {
    grown := new string[a.Length + 1];
    var i := 0;
    while i < a.Length
      invariant 0 <= i <= a.Length
      invariant forall k :: 0 <= k < i && k < start ==> grown[k] == a[k]
      invariant forall k :: start <= k < i ==> grown[k + 1] == a[k]
    {
      if i < start {
        grown[i] := a[i];
      } else {
        grown[i + 1] := a[i];
      }
      i := i + 1;
    }
    grown[start] := item;
  }

  /** The language switch: split the current path into segments, overwrite or
      insert the locale segment, and join the segments into the target path. */
  method ChangeLanguage(pathname: string, newLocale: string) returns (target: string)
    ensures target == ChangeLanguagePath(pathname, newLocale)
  {
    var pieces := Split(pathname, Slash);
    var segments := new string[|pieces|](i requires 0 <= i < |pieces| => pieces[i]);
    assert segments[..] == pieces;
    if segments.Length > 1 && IsLocale(segments[1]) {
      segments[1] := newLocale;
      assert segments[..] == pieces[1 := newLocale];
    } else {
      segments := Splice(segments, 1, newLocale);
      assert segments[..] == [pieces[0], newLocale] + pieces[1..];
    }
    target := Join(segments[..], Slash);
  }

  /** Splitting the target path gives back exactly the rewritten segments, as
      long as the new locale is a single segment. */
  lemma ChangeLanguageSegments(pathname: string, newLocale: string)
    requires Slash !in newLocale
    ensures Split(ChangeLanguagePath(pathname, newLocale), Slash)
      == Relocalized(Split(pathname, Slash), newLocale)
  {
    var result := Relocalized(Split(pathname, Slash), newLocale);
    assert forall i :: 0 <= i < |result| ==> Slash !in result[i] by {
      forall i | 0 <= i < |result| ensures Slash !in result[i] {
        var segments := Split(pathname, Slash);
        if HasLocaleSegment(segments) {
          if i != 1 { assert result[i] == segments[i]; }
        } else if i >= 2 {
          assert result[i] == segments[i - 1];
        }
      }
    }
    SplitJoin(result, Slash);
  }

  /** After the switch, segment 1 of the target path is the new locale, in both
      branches. */
  lemma ChangeLanguageSetsLocale(pathname: string, newLocale: string)
    requires Slash !in newLocale
    ensures |Split(ChangeLanguagePath(pathname, newLocale), Slash)| >= 2
    ensures Split(ChangeLanguagePath(pathname, newLocale), Slash)[1] == newLocale
  {
    ChangeLanguageSegments(pathname, newLocale);
  }

  /** Overwriting the first piece of a join. */
  lemma JoinReplaceHead(parts: seq<string>, head: string)
    requires |parts| >= 1
    ensures |parts[0]| <= |Join(parts, Slash)|
    ensures Join([head] + parts[1..], Slash) == head + Join(parts, Slash)[|parts[0]|..]
  {
    if |parts| >= 2 {
      JoinCons(parts, Slash);
      JoinCons([head] + parts[1..], Slash);
      assert ([head] + parts[1..])[1..] == parts[1..];
      assert Join(parts, Slash)[|parts[0]|..] == [Slash] + Join(parts[1..], Slash);
    } else {
      assert [head] + parts[1..] == [head];
    }
  }

  /** Replace branch: the segment count and every segment but index 1 are kept,
      and in the text only the old locale is swapped for the new one. */
  lemma ChangeLanguageReplace(pathname: string, newLocale: string)
    requires HasLocaleSegment(Split(pathname, Slash))
    ensures var segments := Split(pathname, Slash);
      |segments[0]| + 1 + |segments[1]| <= |pathname| &&
      ChangeLanguagePath(pathname, newLocale)
        == segments[0] + [Slash] + newLocale + pathname[|segments[0]| + 1 + |segments[1]|..]
    ensures Slash !in newLocale ==>
      var segments := Split(pathname, Slash);
      var after := Split(ChangeLanguagePath(pathname, newLocale), Slash);
      |after| == |segments| &&
      forall i :: 0 <= i < |segments| && i != 1 ==> after[i] == segments[i]
  {
    var segments := Split(pathname, Slash);
    var result := segments[1 := newLocale];
    SplitFirstPiece(pathname, Slash);
    var rest := Join(segments[1..], Slash);
    assert pathname[|segments[0]|..] == [Slash] + rest;
    JoinReplaceHead(segments[1..], newLocale);
    assert result[1..] == [newLocale] + segments[1..][1..];
    JoinCons(result, Slash);
    assert pathname[|segments[0]| + 1 + |segments[1]|..] == rest[|segments[1]|..];
    if Slash !in newLocale {
      ChangeLanguageSegments(pathname, newLocale);
    }
  }

  /** Insert branch: one segment more, segment 0 kept, the old segments from
      index 1 on shifted up by one, and in the text the new locale appears
      right after the first segment with nothing else changed. */
  lemma ChangeLanguageInsert(pathname: string, newLocale: string)
    requires !HasLocaleSegment(Split(pathname, Slash))
    ensures var segments := Split(pathname, Slash);
      |segments[0]| <= |pathname| &&
      ChangeLanguagePath(pathname, newLocale)
        == segments[0] + [Slash] + newLocale + pathname[|segments[0]|..]
    ensures Slash !in newLocale ==>
      var segments := Split(pathname, Slash);
      var after := Split(ChangeLanguagePath(pathname, newLocale), Slash);
      |after| == |segments| + 1 && after[0] == segments[0] &&
      forall i :: 1 <= i < |segments| ==> after[i + 1] == segments[i]
  {
    var segments := Split(pathname, Slash);
    var result := [segments[0], newLocale] + segments[1..];
    assert Relocalized(segments, newLocale) == result;
    var target := Join(result, Slash);
    var tail := Join(result[1..], Slash);
    SplitFirstPiece(pathname, Slash);
    JoinCons(result, Slash);
    assert target == segments[0] + [Slash] + tail;
    if |segments| == 1 {
      assert result[1..] == [newLocale];
      assert tail == newLocale;
      assert pathname[|segments[0]|..] == [];
    } else {
      var rest := Join(segments[1..], Slash);
      JoinCons(result[1..], Slash);
      assert result[1..][1..] == segments[1..];
      assert tail == newLocale + [Slash] + rest;
      assert pathname[|segments[0]|..] == [Slash] + rest;
    }
    assert target == segments[0] + [Slash] + newLocale + pathname[|segments[0]|..];
    if Slash !in newLocale {
      ChangeLanguageSegments(pathname, newLocale);
    }
  }

  /** Switching to a locale a second time changes nothing. */
  lemma ChangeLanguageIdempotent(pathname: string, newLocale: string)
    requires IsLocale(newLocale)
    ensures ChangeLanguagePath(ChangeLanguagePath(pathname, newLocale), newLocale)
      == ChangeLanguagePath(pathname, newLocale)
  {
    var target := ChangeLanguagePath(pathname, newLocale);
    ChangeLanguageSegments(pathname, newLocale);
    var segments := Split(target, Slash);
    assert HasLocaleSegment(segments);
    assert Relocalized(segments, newLocale) == segments;
  }

  /** On a path whose segment 1 is a locale, switching to another locale and
      back restores the path. */
  lemma ChangeLanguageRoundTrip(pathname: string, other: string)
    requires HasLocaleSegment(Split(pathname, Slash))
    requires IsLocale(other)
    ensures ChangeLanguagePath(ChangeLanguagePath(pathname, other), Split(pathname, Slash)[1])
      == pathname
  {
    var segments := Split(pathname, Slash);
    ChangeLanguageSegments(pathname, other);
    var switched := Split(ChangeLanguagePath(pathname, other), Slash);
    assert switched == segments[1 := other];
    assert HasLocaleSegment(switched);
    assert Relocalized(switched, segments[1]) == segments;
    JoinSplit(pathname, Slash);
  }

  // ---------------------------------------------------------------------------
  // Navigation links

  /** The `href` of the navigation entries (home, about, products, process,
      contact), in menu order. */
  const NavigationHrefs: seq<string> := ["/", "/about", "/products", "/process", "/contact"]

  /** The link of a navigation entry in `locale`: the locale as first segment,
      then the entry's path, where the home entry adds nothing. */
  function LocalizedHref(locale: string, href: string): (link: string)
    ensures |link| >= |locale| + 1 && link[..|locale| + 1] == [Slash] + locale
    ensures href == "/" ==> link == [Slash] + locale
    ensures href != "/" ==> link[|locale| + 1..] == href
  {
    "/" + locale + (if href == "/" then "" else href)
  }

  /** An `href` that is the home path or starts with the separator. */
  predicate IsRootedHref(href: string)
  {
    href == "/" || (|href| > 0 && href[0] == Slash)
  }

  /** A localized link has an empty segment 0 and the locale as segment 1. */
  lemma LocalizedHrefSegments(locale: string, href: string)
    requires Slash !in locale
    requires IsRootedHref(href)
    ensures var segments := Split(LocalizedHref(locale, href), Slash);
      |segments| >= 2 && segments[0] == "" && segments[1] == locale
  {
    var rest := if href == "/" then "" else href;
    assert LocalizedHref(locale, href) == [Slash] + (locale + rest);
    SplitSepPrefix(locale + rest, Slash);
    SplitFreePrefix(locale, rest, Slash);
    if rest != "" {
      assert rest == [Slash] + rest[1..];
      SplitSepPrefix(rest[1..], Slash);
    }
    assert Split(rest, Slash)[0] == "";
    assert locale + "" == locale;
  }

  /** Switching the language on a page reached through a navigation link lands
      on the same entry's link in the new locale. */
  lemma LocalizedHrefSwitch(from: string, to: string, href: string)
    requires IsLocale(from) && IsLocale(to)
    requires IsRootedHref(href)
    ensures ChangeLanguagePath(LocalizedHref(from, href), to) == LocalizedHref(to, href)
  {
    var link := LocalizedHref(from, href);
    LocalizedHrefSegments(from, href);
    ChangeLanguageReplace(link, to);
    var rest := if href == "/" then "" else href;
    assert link == [Slash] + from + rest;
    assert link[1 + |from|..] == rest;
  }

  /** Every navigation entry's link follows the switch. */
  lemma NavigationLinksSwitch(from: string, to: string)
    requires IsLocale(from) && IsLocale(to)
    ensures forall i :: 0 <= i < |NavigationHrefs| ==>
      ChangeLanguagePath(LocalizedHref(from, NavigationHrefs[i]), to)
        == LocalizedHref(to, NavigationHrefs[i])
  {
    forall i | 0 <= i < |NavigationHrefs|
      ensures ChangeLanguagePath(LocalizedHref(from, NavigationHrefs[i]), to)
        == LocalizedHref(to, NavigationHrefs[i])
    {
      assert IsRootedHref(NavigationHrefs[i]);
      LocalizedHrefSwitch(from, to, NavigationHrefs[i]);
    }
  }
}
